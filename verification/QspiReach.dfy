/** Which devices can reach a state in which a flush skips a block. */
module QspiReach {
  import opened BadBlocks
  import opened QspiCache
  import opened QspiCoherence
  import opened QspiFlush

  datatype Put = Put(offset: nat, src: seq<byte>)

  ghost predicate Within(c: Cache, puts: seq<Put>) {
    forall k :: 0 <= k < |puts| ==> puts[k].offset + |puts[k].src| <= c.DieSize()
  }

  /** The device after some writes. */
  ghost function PutAll(c: Cache, puts: seq<Put>): (r: Cache)
    requires c.Valid() && Within(c, puts)
    ensures r.Valid() && r.blockSize == c.blockSize && r.total == c.total && r.blocks == c.blocks
    decreases |puts|
  {
    if puts == [] then c
    else
      var n := |puts| - 1;
      var before := PutAll(c, puts[..n]);
      KeepsMap(before, puts[n].offset, puts[n].src);
      WriteBlock(before, puts[n].offset, puts[n].src)
  }

  lemma KeepsMap(c: Cache, offset: nat, src: seq<byte>)
    requires c.Valid() && offset + |src| <= c.DieSize()
    ensures var r := WriteBlock(c, offset, src);
            r.blockSize == c.blockSize && r.total == c.total && r.blocks == c.blocks && r.dirtyFlag
  {
    WriteBrings(c, c.(dirtyFlag := true), offset, src, offset + |src|);
  }

  /** Dirty blocks are cached and offered, and the flag is raised for them. */
  ghost predicate Accounted(c: Cache)
    requires c.Valid()
  {
    DirtyIsCached(c) && (c.dirtyFlag || forall p: nat :: p < c.total ==> !c.dirty[p])
  }

  lemma WriteAccounted(c: Cache, offset: nat, src: seq<byte>, end: nat)
    requires c.Valid() && end == offset + |src| <= c.DieSize() && Accounted(c)
    ensures Accounted(WriteBlock(c, offset, src))
  {
    var start := c.(dirtyFlag := true);
    WriteBrings(c, start, offset, src, end);
    LoadsOffered(start, offset, end);
  }

  lemma {:induction false} PutAllAccounted(c: Cache, puts: seq<Put>)
    requires c.Valid() && Within(c, puts) && Accounted(c)
    ensures Accounted(PutAll(c, puts))
    decreases |puts|
  {
    if puts != [] {
      var n := |puts| - 1;
      PutAllAccounted(c, puts[..n]);
      WriteAccounted(PutAll(c, puts[..n]), puts[n].offset, puts[n].src, puts[n].offset + |puts[n].src|);
    }
  }

  ghost predicate AnyDirty(c: Cache)
    requires c.Valid()
  {
    exists p: nat :: p < c.total && c.dirty[p]
  }

  /** Some block with a number at or above the offered count is offered. */
  ghost predicate OffersHigh(c: Cache) {
    exists p: nat :: p in c.blocks && p >= |c.blocks|
  }

  lemma OffersHighIff(c: Cache, bad: seq<nat>)
    requires c.Valid() && Scanned(bad, c.total) && c.blocks == GoodBlocks(bad, c.total)
    ensures OffersHigh(c) <==> exists b :: b in bad && b < |c.blocks|
  {
    MapIsBijection(bad, c.total);
    if c.blocks != [] {
      var last := |c.blocks| - 1;
      IdentityUpTo(bad, c.total, last);
      if c.blocks[last] == last {
        AtHome(c.blocks, last);
      } else {
        Grows(c.blocks, last);
        assert c.blocks[last] in c.blocks;
      }
    }
  }

  /** A faultless flush of an accounted device that leaves a dirty block has skipped a high one. */
  lemma SkippedIsHigh(c: Cache)
    requires c.Valid() && |c.blocks| <= c.total && Accounted(c) && AnyDirty(Flush(c, NO_FAULTS))
    ensures OffersHigh(c)
  {
    assert c.dirtyFlag;
    EarlyExitIff(c);
    var p: nat :| p < c.total && c.dirty[p] && p >= |c.blocks|;
    assert p in c.blocks;
  }

  /** One byte written to the last offered block. */
  lemma LastBlockDirty(c: Cache, offset: nat)
    requires c.Valid() && c.blocks != [] && offset == c.blockSize * (|c.blocks| - 1)
    ensures offset + 1 <= c.DieSize()
    ensures var r := WriteBlock(c, offset, [0]); r.total == c.total && r.dirty[c.blocks[|c.blocks| - 1]]
  {
    var last, end := |c.blocks| - 1, offset + 1;
    assert c.blockSize * |c.blocks| == c.blockSize * last + c.blockSize;
    BlocksOn(c.blockSize, last, 0, 0, offset);
    WriteBrings(c, c.(dirtyFlag := true), offset, [0], end);
  }

  lemma HighDirtyIsSkipped(c: Cache, p: nat)
    requires c.Valid() && |c.blocks| <= c.total && Accounted(c) && |c.blocks| <= p < c.total && c.dirty[p]
    ensures AnyDirty(Flush(c, NO_FAULTS))
  {
    EarlyExitIff(c);
  }

  lemma OnePut(c: Cache, put: Put)
    requires c.Valid() && put.offset + |put.src| <= c.DieSize()
    ensures PutAll(c, [put]) == WriteBlock(c, put.offset, put.src)
  {
    assert [put][..0] == [];
    assert PutAll(c, []) == c;
  }

  lemma LastIsHigh(blocks: seq<nat>, p: nat)
    requires p in blocks && p >= |blocks| && forall i, j :: 0 <= i < j < |blocks| ==> blocks[i] < blocks[j]
    ensures blocks[|blocks| - 1] >= |blocks|
  {
  }

  /** What a device looks like after a run whose last offered block is dirty. */
  ghost predicate LastDirty(c: Cache, r: Cache)
    requires c.Valid() && c.blocks != [] && r.Valid()
  {
    Accounted(r) && r.blocks == c.blocks && r.total == c.total && r.dirty[c.blocks[|c.blocks| - 1]]
  }

  lemma LastPut(c: Cache, put: Put, r: Cache)
    requires c.Valid() && c.blocks != [] && Accounted(c) && put == Put(c.blockSize * (|c.blocks| - 1), [0])
    requires put.offset + 1 <= c.DieSize() && r == WriteBlock(c, put.offset, put.src)
    ensures Within(c, [put]) && PutAll(c, [put]) == r && LastDirty(c, r)
  {
    LastBlockDirty(c, put.offset);
    OnePut(c, put);
    KeepsMap(c, put.offset, put.src);
    WriteAccounted(c, put.offset, put.src, put.offset + 1);
  }

  lemma LastFits(c: Cache)
    requires c.Valid() && c.blocks != []
    ensures c.blockSize * (|c.blocks| - 1) + 1 <= c.DieSize()
  {
    assert c.blockSize * |c.blocks| == c.blockSize * (|c.blocks| - 1) + c.blockSize;
  }

  /** That write as a run. */
  lemma LastRun(c: Cache) returns (puts: seq<Put>, r: Cache)
    requires c.Valid() && c.blocks != [] && Accounted(c)
    ensures Within(c, puts) && PutAll(c, puts) == r && r.Valid() && LastDirty(c, r)
  {
    LastFits(c);
    var put := Put(c.blockSize * (|c.blocks| - 1), [0]);
    r := WriteBlock(c, put.offset, put.src);
    LastPut(c, put, r);
    puts := [put];
  }

  lemma HighIsSkipped(c: Cache) returns (puts: seq<Put>)
    requires c.Valid() && |c.blocks| <= c.total && Accounted(c) && OffersHigh(c)
    requires forall i, j :: 0 <= i < j < |c.blocks| ==> c.blocks[i] < c.blocks[j]
    ensures Within(c, puts) && AnyDirty(Flush(PutAll(c, puts), NO_FAULTS))
  {
    var p: nat :| p in c.blocks && p >= |c.blocks|;
    LastIsHigh(c.blocks, p);
    var r;
    puts, r := LastRun(c);
    HighDirtyIsSkipped(r, c.blocks[|c.blocks| - 1]);
  }

  /** From a device just initialized some writes and a flush in which nothing fails leave a dirty block
      behind exactly if some bad block has a number below the count of good ones. */
  lemma SkipReachableIff(c: Cache, bad: seq<nat>)
    requires c.Valid() && Scanned(bad, c.total) && c.blocks == GoodBlocks(bad, c.total)
    requires forall p :: 0 <= p < c.total ==> !c.inCache[p] && !c.dirty[p]
    ensures |c.blocks| == c.total - |bad|
    ensures (exists puts :: Within(c, puts) && AnyDirty(Flush(PutAll(c, puts), NO_FAULTS)))
            <==> exists b :: b in bad && b < c.total - |bad|
  {
    MapIsBijection(bad, c.total);
    OffersHighIff(c, bad);
    forall puts | Within(c, puts) && AnyDirty(Flush(PutAll(c, puts), NO_FAULTS))
      ensures OffersHigh(c)
    {
      PutAllAccounted(c, puts);
      SkippedIsHigh(PutAll(c, puts));
    }
    if OffersHigh(c) {
      var puts := HighIsSkipped(c);
    }
  }
}
