/** When the cached read path is right: it brings blocks in by their physical number but copies
    out by logical offset. */
module QspiCoherence {
  import opened Bits
  import opened BadBlocks
  import opened QspiCache

  /** The unchanging part of a device and a request within it. */
  datatype Request = Request(blockSize: nat, total: nat, blocks: seq<nat>, offset: nat, count: nat) {
    function Device(data: seq<byte>, flash: seq<byte>): Cache {
      Cache(blockSize, total, blocks, seq(total, _ => false), seq(total, _ => false), data, flash, false, [])
    }

    ghost predicate Valid() {
      && blockSize > 0
      && (forall l :: 0 <= l < |blocks| ==> blocks[l] < total)
      && (forall k, l :: 0 <= k < l < |blocks| ==> blocks[k] != blocks[l])
      && offset + count <= blockSize * |blocks| <= blockSize * total
    }

    ghost predicate InRequest(i: nat) {
      offset <= i < offset + count
    }

    /** Logical byte i: the same offset within the physical block that holds its logical block. */
    ghost function HomeOf(i: nat): nat
      requires Valid() && InRequest(i)
    {
      RequestedBlock(this, i);
      blocks[BlockOf(blockSize, i)] * blockSize + i % blockSize
    }

    /** Byte i is kept at its own offset and the demand loop brings its block in. */
    ghost predicate Served(i: nat)
      requires Valid() && InRequest(i)
    {
      RequestedBlock(this, i);
      var l := BlockOf(blockSize, i);
      blocks[l] == l && l in Visits(blockSize, offset, offset + count)
    }
  }

  lemma RequestedBlock(q: Request, i: nat)
    requires q.Valid() && q.InRequest(i)
    ensures BlockOf(q.blockSize, i) < |q.blocks|
  {
    BlockInRange(q.Device(seq(q.blockSize * q.total, _ => 0), seq(q.blockSize * q.total, _ => 0)), i);
  }

  lemma Home(q: Request, i: nat)
    requires q.Valid() && q.InRequest(i)
    ensures BlockOf(q.blockSize, i) < |q.blocks|
    ensures var l := BlockOf(q.blockSize, i);
            && q.HomeOf(i) < q.blockSize * q.total
            && BlockOf(q.blockSize, q.HomeOf(i)) == q.blocks[l]
            && (q.HomeOf(i) == i <==> q.blocks[l] == l)
  {
    RequestedBlock(q, i);
    var l := BlockOf(q.blockSize, i);
    var p, r := q.blocks[l], i % q.blockSize;
    DivModUnique(q.HomeOf(i), q.blockSize, p, r);
    assert i == q.blockSize * l + r;
    InBlock(q.blockSize, q.total, p, r);
  }

  lemma InBlock(blockSize: nat, total: nat, p: nat, r: nat)
    requires p < total && r < blockSize
    ensures p * blockSize + r < blockSize * total
  {
    assert blockSize * total == blockSize * (total - p - 1) + blockSize * p + blockSize;
    assert blockSize * (total - p - 1) >= 0;
  }

  /** On every freshly initialized device the request returns the logical bytes. */
  ghost predicate AlwaysRight(q: Request)
    requires q.Valid()
  {
    forall data: seq<byte>, flash: seq<byte> ::
      |data| == |flash| == q.blockSize * q.total ==> RightOn(q, data, flash)
  }

  ghost predicate RightOn(q: Request, data: seq<byte>, flash: seq<byte>)
    requires q.Valid() && |data| == |flash| == q.blockSize * q.total
  {
    var out := ReadBlock(q.Device(data, flash), q.offset, q.count).1;
    forall i: nat :: q.InRequest(i) ==> q.HomeOf(i) < |flash| && out[i - q.offset] == flash[q.HomeOf(i)]
  }

  lemma {:induction false} LoadsAre(c: Cache, offset: nat, end: nat, l: nat)
    requires c.Valid() && (offset < end ==> end <= c.DieSize()) && l < |c.blocks|
    ensures c.blocks[l] in Loads(c, offset, end) <==> l in Visits(c.blockSize, offset, end)
    decreases end - offset
  {
    if offset < end {
      BlockInRange(c, offset);
      LoadsAre(c, offset + c.blockSize, end, l);
    }
  }

  lemma DeviceValid(q: Request, data: seq<byte>, flash: seq<byte>)
    requires q.Valid() && |data| == |flash| == q.blockSize * q.total
    ensures var c := q.Device(data, flash); c.Valid() && q.offset + q.count <= c.DieSize()
  {
  }

  lemma ReadReturns(c: Cache, offset: nat, count: nat, i: nat)
    requires c.Valid() && offset + count <= c.DieSize() && offset <= i < offset + count
    ensures ReadBlock(c, offset, count).1[i - offset] == BroughtByte(c, Loads(c, offset, offset + count), i)
  {
    FillEffect(c, offset, offset + count, false);
    var b := Brought(c, Loads(c, offset, offset + count), false);
    assert ReadBlock(c, offset, count).1 == b.data[offset..offset + count];
    assert b.data[i] == BroughtByte(c, Loads(c, offset, offset + count), i);
  }

  /** What the read returns for byte i. */
  lemma Returned(q: Request, data: seq<byte>, flash: seq<byte>, i: nat)
    requires q.Valid() && |data| == |flash| == q.blockSize * q.total && q.InRequest(i)
    ensures var c := q.Device(data, flash); c.Valid() && q.offset + q.count <= c.DieSize()
    ensures var c := q.Device(data, flash);
            ReadBlock(c, q.offset, q.count).1[i - q.offset] ==
              if BlockOf(q.blockSize, i) in Loads(c, q.offset, q.offset + q.count) then flash[i] else data[i]
  {
    DeviceValid(q, data, flash);
    var c := q.Device(data, flash);
    ReadReturns(c, q.offset, q.count, i);
    BlockBelow(c, i);
  }

  lemma ServedIsRight(q: Request)
    requires q.Valid() && forall i: nat :: q.InRequest(i) ==> q.Served(i)
    ensures AlwaysRight(q)
  {
    forall data: seq<byte>, flash: seq<byte> | |data| == |flash| == q.blockSize * q.total
      ensures RightOn(q, data, flash)
    {
      forall i: nat | q.InRequest(i)
        ensures q.HomeOf(i) < |flash| && ReadBlock(q.Device(data, flash), q.offset, q.count).1[i - q.offset] == flash[q.HomeOf(i)]
      {
        assert q.Served(i);
        Home(q, i);
        Returned(q, data, flash, i);
        LoadsAre(q.Device(data, flash), q.offset, q.offset + q.count, BlockOf(q.blockSize, i));
      }
    }
  }

  /** A one at the home of an unserved byte, zeros everywhere else. */
  lemma UnservedIsWrong(q: Request, i: nat)
    requires q.Valid() && q.InRequest(i) && !q.Served(i)
    ensures !AlwaysRight(q)
  {
    Home(q, i);
    var l, h, size := BlockOf(q.blockSize, i), q.HomeOf(i), q.blockSize * q.total;
    var data: seq<byte> := seq(size, _ => 0);
    var flash: seq<byte> := data[h := 1];
    Returned(q, data, flash, i);
    LoadsAre(q.Device(data, flash), q.offset, q.offset + q.count, l);
    assert q.HomeOf(i) == h;
    assert !RightOn(q, data, flash);
  }

  lemma RightIffServed(q: Request)
    requires q.Valid()
    ensures AlwaysRight(q) <==> forall i: nat :: q.InRequest(i) ==> q.Served(i)
  {
    if forall i: nat :: q.InRequest(i) ==> q.Served(i) {
      ServedIsRight(q);
    } else {
      var i: nat :| q.InRequest(i) && !q.Served(i);
      UnservedIsWrong(q, i);
    }
  }

  /** If all bytes are served, the blocks up to the last one are at home and nothing carries. */
  lemma ServedMeans(q: Request, last: nat)
    requires q.Valid() && q.count > 0 && last == BlockOf(q.blockSize, q.offset + q.count - 1)
    requires forall i, j :: 0 <= i < j < |q.blocks| ==> q.blocks[i] < q.blocks[j]
    requires forall i: nat :: q.InRequest(i) ==> q.Served(i)
    ensures last < |q.blocks| && NoCarry(q.blockSize, q.offset, q.count) && AllHome(q.blocks, last)
  {
    RequestedBlock(q, q.offset + q.count - 1);
    assert q.Served(q.offset + q.count - 1);
    AtHome(q.blocks, last);
    forall i | q.offset <= i < q.offset + q.count
      ensures BlockOf(q.blockSize, i) in Visits(q.blockSize, q.offset, q.offset + q.count)
    {
      assert q.InRequest(i) && q.Served(i);
    }
    CoveredIff(q.blockSize, q.offset, q.count);
  }

  lemma HomeMeansServed(q: Request, last: nat)
    requires q.Valid() && q.count > 0 && last == BlockOf(q.blockSize, q.offset + q.count - 1) < |q.blocks|
    requires NoCarry(q.blockSize, q.offset, q.count) && AllHome(q.blocks, last)
    ensures forall i: nat :: q.InRequest(i) ==> q.Served(i)
  {
    CoveredIff(q.blockSize, q.offset, q.count);
    forall i: nat | q.InRequest(i)
      ensures q.Served(i)
    {
      BlockOfMonotone(q.blockSize, i, q.offset + q.count - 1);
    }
  }

  ghost predicate AllHome(g: seq<nat>, last: nat)
    requires last < |g|
  {
    forall k :: 0 <= k <= last ==> g[k] == k
  }

  /** The request does not carry and no bad block lies at or below its last block. */
  ghost predicate ClearOfBad(q: Request, bad: seq<nat>)
    requires q.Valid()
  {
    q.count == 0 || (NoCarry(q.blockSize, q.offset, q.count)
                     && forall b :: b in bad ==> b > BlockOf(q.blockSize, q.offset + q.count - 1))
  }

  lemma ServedIff(q: Request, bad: seq<nat>)
    requires q.Valid() && Scanned(bad, q.total) && q.blocks == GoodBlocks(bad, q.total)
    ensures (forall i: nat :: q.InRequest(i) ==> q.Served(i)) <==> ClearOfBad(q, bad)
  {
    if q.count > 0 {
      var last := BlockOf(q.blockSize, q.offset + q.count - 1);
      RequestedBlock(q, q.offset + q.count - 1);
      GoodBlocksAre(bad, q.total);
      IdentityUpTo(bad, q.total, last);
      if forall i: nat :: q.InRequest(i) ==> q.Served(i) {
        ServedMeans(q, last);
      } else if NoCarry(q.blockSize, q.offset, q.count) && AllHome(q.blocks, last) {
        HomeMeansServed(q, last);
      }
    }
  }

  /** The cached read is right on every fresh device exactly when the request does not carry and no
      bad block lies at or below its last block. */
  lemma ReadRightIff(q: Request, bad: seq<nat>)
    requires q.Valid() && Scanned(bad, q.total) && q.blocks == GoodBlocks(bad, q.total)
    ensures AlwaysRight(q) <==> ClearOfBad(q, bad)
  {
    RightIffServed(q);
    ServedIff(q, bad);
  }

  // ------------------------------------------------------------------------- writes

  /** On every freshly initialized device, whatever is written, the request replaces its own logical
      bytes and no other. */
  ghost predicate AlwaysWritten(q: Request)
    requires q.Valid()
  {
    forall data: seq<byte>, flash: seq<byte>, src: seq<byte> ::
      |data| == |flash| == q.blockSize * q.total && |src| == q.count ==> WrittenOn(q, data, flash, src)
  }

  ghost predicate WrittenOn(q: Request, data: seq<byte>, flash: seq<byte>, src: seq<byte>)
    requires q.Valid() && |data| == |flash| == q.blockSize * q.total && |src| == q.count
  {
    && (forall i: nat :: q.InRequest(i) ==> q.HomeOf(i) < |flash| && Shown(q, data, flash, src, q.HomeOf(i)) == src[i - q.offset])
    && (forall j: nat :: j < |flash| && (forall i: nat :: q.InRequest(i) ==> q.HomeOf(i) != j) ==>
          Shown(q, data, flash, src, j) == flash[j])
  }

  /** What the device shows at physical offset j after the write. */
  ghost function Shown(q: Request, data: seq<byte>, flash: seq<byte>, src: seq<byte>, j: nat): byte
    requires q.Valid() && |data| == |flash| == q.blockSize * q.total && |src| == q.count && j < |flash|
  {
    DeviceValid(q, data, flash);
    LogicalByte(WriteBlock(q.Device(data, flash), q.offset, src), j)
  }

  lemma WriteLeaves(c: Cache, start: Cache, offset: nat, src: seq<byte>, end: nat, j: nat)
    requires c.Valid() && end == offset + |src| <= c.DieSize() && j < |c.data| && start == c.(dirtyFlag := true)
    requires BlockOf(c.blockSize, j) < c.total && !c.inCache[BlockOf(c.blockSize, j)]
    ensures LogicalByte(WriteBlock(c, offset, src), j) ==
            if BlockOf(c.blockSize, j) in Loads(start, offset, end) && offset <= j < end then src[j - offset] else c.flash[j]
  {
    WriteBrings(c, start, offset, src, end);
    BlockBelow(c, j);
  }

  lemma ShownAfter(q: Request, data: seq<byte>, flash: seq<byte>, src: seq<byte>, j: nat)
    requires q.Valid() && |data| == |flash| == q.blockSize * q.total && |src| == q.count && j < |flash|
    ensures BlockOf(q.blockSize, j) < q.total
    ensures Shown(q, data, flash, src, j) ==
            if BlockOf(q.blockSize, j) in Loads(q.Device(data, flash), q.offset, q.offset + q.count) && q.InRequest(j)
            then src[j - q.offset] else flash[j]
  {
    DeviceValid(q, data, flash);
    var c, end := q.Device(data, flash), q.offset + q.count;
    BlockBelow(c, j);
    var start := c.(dirtyFlag := true);
    WriteLeaves(c, start, q.offset, src, end, j);
    LoadsSame(c, start, q.offset, end);
  }

  lemma ServedIsWritten(q: Request, data: seq<byte>, flash: seq<byte>, src: seq<byte>)
    requires q.Valid() && |data| == |flash| == q.blockSize * q.total && |src| == q.count
    requires forall i: nat :: q.InRequest(i) ==> q.Served(i)
    ensures WrittenOn(q, data, flash, src)
  {
    forall i: nat | q.InRequest(i)
      ensures q.HomeOf(i) == i < |flash| && Shown(q, data, flash, src, i) == src[i - q.offset]
    {
      assert q.Served(i);
      Home(q, i);
      LoadsAre(q.Device(data, flash), q.offset, q.offset + q.count, BlockOf(q.blockSize, i));
      ShownAfter(q, data, flash, src, i);
    }
    forall j: nat | j < |flash| && forall i: nat :: q.InRequest(i) ==> q.HomeOf(i) != j
      ensures Shown(q, data, flash, src, j) == flash[j]
    {
      ShownAfter(q, data, flash, src, j);
      assert !q.InRequest(j);
    }
  }

  /** A one for the unserved byte, zeros everywhere else. */
  lemma UnservedIsNotWritten(q: Request, i: nat)
    requires q.Valid() && q.InRequest(i) && !q.Served(i)
    ensures !AlwaysWritten(q)
  {
    Home(q, i);
    var l, h, size := BlockOf(q.blockSize, i), q.HomeOf(i), q.blockSize * q.total;
    var flash: seq<byte> := seq(size, _ => 0);
    var src: seq<byte> := seq(q.count, k => if k == i - q.offset then 1 else 0);
    ShownAfter(q, flash, flash, src, h);
    LoadsAre(q.Device(flash, flash), q.offset, q.offset + q.count, l);
    assert Shown(q, flash, flash, src, h) == 0;
    assert !WrittenOn(q, flash, flash, src);
  }

  /** A cached write is right on every fresh device under exactly the same condition as a read. */
  lemma WriteRightIff(q: Request, bad: seq<nat>)
    requires q.Valid() && Scanned(bad, q.total) && q.blocks == GoodBlocks(bad, q.total)
    ensures AlwaysWritten(q) <==> ClearOfBad(q, bad)
  {
    ServedIff(q, bad);
    if forall i: nat :: q.InRequest(i) ==> q.Served(i) {
      forall data: seq<byte>, flash: seq<byte>, src: seq<byte> | |data| == |flash| == q.blockSize * q.total && |src| == q.count
        ensures WrittenOn(q, data, flash, src)
      {
        ServedIsWritten(q, data, flash, src);
      }
    } else {
      var i: nat :| q.InRequest(i) && !q.Served(i);
      UnservedIsNotWritten(q, i);
    }
  }

  lemma AtHome(g: seq<nat>, l: nat)
    requires l < |g| && g[l] == l && forall i, j :: 0 <= i < j < |g| ==> g[i] < g[j]
    ensures forall k :: 0 <= k <= l ==> g[k] == k
    decreases l
  {
    if l > 0 {
      assert g[l - 1] < g[l];
      Grows(g, l - 1);
      AtHome(g, l - 1);
    }
  }

  lemma {:induction false} Grows(g: seq<nat>, k: nat)
    requires k < |g| && forall i, j :: 0 <= i < j < |g| ==> g[i] < g[j]
    ensures g[k] >= k
  {
    if k > 0 {
      Grows(g, k - 1);
    }
  }
}
