/** The write-back block cache in front of the QSPI flash, as a transformation of values. */
module QspiCache {
  import opened Bits
  import opened BadBlocks

  type byte = bv8

  const ERASED: byte := 0xFF

  /** total counts all physical blocks; the map sends the offered logical blocks to distinct ones. */
  datatype Cache = Cache(
    blockSize: nat, total: nat, blocks: seq<nat>,
    inCache: seq<bool>, dirty: seq<bool>, data: seq<byte>,
    flash: seq<byte>, dirtyFlag: bool, erased: seq<nat>)
  {
    function DieSize(): int {
      blockSize * |blocks|
    }

    ghost predicate Valid() {
      && blockSize > 0
      && (forall l :: 0 <= l < |blocks| ==> blocks[l] < total)
      && (forall k, l :: 0 <= k < l < |blocks| ==> blocks[k] != blocks[l])
      && |inCache| == |dirty| == total
      && |data| == |flash| == blockSize * total >= DieSize()
    }

    /** Same device: only cache contents and block flags may differ. */
    ghost predicate SameDevice(r: Cache) {
      && r.blockSize == blockSize && r.total == total && r.blocks == blocks
      && r.flash == flash && r.dirtyFlag == dirtyFlag && r.erased == erased
    }
  }

  function BlockOf(blockSize: nat, i: nat): nat
    requires blockSize > 0
  {
    i / blockSize
  }

  // ------------------------------------------------------------- flash and buffer steps

  /** Block p of one buffer replaced by the same block of another. */
  function CopyBlock(blockSize: nat, p: nat, to: seq<byte>, from: seq<byte>): (s: seq<byte>)
    requires blockSize > 0 && |to| == |from|
    ensures |s| == |to|
  {
    seq(|to|, i requires 0 <= i < |to| => if BlockOf(blockSize, i) == p then from[i] else to[i])
  }

  function EraseBlock(blockSize: nat, p: nat, flash: seq<byte>): (s: seq<byte>)
    requires blockSize > 0
    ensures |s| == |flash|
  {
    seq(|flash|, i requires 0 <= i < |flash| => if BlockOf(blockSize, i) == p then ERASED else flash[i])
  }

  function Cleared(was: byte, b: byte): byte {
    was & b
  }

  /** The bits of flash byte i that programming leaves as they are. */
  function Missed(missed: map<nat, byte>, i: nat): byte {
    if i in missed then missed[i] else 0
  }

  /** Programming can only clear bits, and may miss some. */
  function ProgrammedByte(was: byte, b: byte, missed: map<nat, byte>, i: nat): byte {
    Cleared(was, b | Missed(missed, i))
  }

  function ProgramBlock(blockSize: nat, p: nat, flash: seq<byte>, data: seq<byte>, missed: map<nat, byte>): (s: seq<byte>)
    requires blockSize > 0 && |flash| == |data|
    ensures |s| == |flash|
  {
    seq(|flash|, i requires 0 <= i < |flash| =>
      if BlockOf(blockSize, i) == p then ProgrammedByte(flash[i], data[i], missed, i) else flash[i])
  }

  function Splice(s: seq<byte>, at: nat, t: seq<byte>): (r: seq<byte>)
    ensures |r| == |s|
  {
    seq(|s|, i requires 0 <= i < |s| => if at <= i < at + |t| then t[i - at] else s[i])
  }

  /** Programming an erased block stores the data, with the bits it misses left set. */
  lemma ProgramErased(blockSize: nat, p: nat, flash: seq<byte>, data: seq<byte>, missed: map<nat, byte>)
    requires blockSize > 0 && |flash| == |data|
    ensures ProgramBlock(blockSize, p, EraseBlock(blockSize, p, flash), data, missed) ==
            CopyBlock(blockSize, p, flash, Programmed(data, missed))
    ensures Programmed(data, map[]) == data
  {
    forall i | 0 <= i < |flash|
      ensures Cleared(ERASED, data[i] | Missed(missed, i)) == data[i] | Missed(missed, i)
      ensures data[i] | 0 == data[i]
    {
      ErasedAnd(data[i] | Missed(missed, i));
      OrNothing(data[i]);
    }
  }

  function Programmed(data: seq<byte>, missed: map<nat, byte>): (s: seq<byte>)
    ensures |s| == |data|
  {
    seq(|data|, i requires 0 <= i < |data| => data[i] | Missed(missed, i))
  }

  lemma OrNothing(b: byte)
    ensures b | 0 == b
  {
  }

  lemma ErasedAnd(b: byte)
    ensures Cleared(ERASED, b) == b
  {
  }

  // -------------------------------------------------------------------- operations

  /** Bring one logical block in, into the place of its physical block. */
  function FillBlock(c: Cache, l: nat, markDirty: bool): (r: Cache)
    requires c.Valid() && l < |c.blocks|
    ensures r.Valid() && c.SameDevice(r)
  {
    var p := c.blocks[l];
    var c1 := if c.inCache[p] then c
              else c.(data := CopyBlock(c.blockSize, p, c.data, c.flash), inCache := c.inCache[p := true]);
    if markDirty then c1.(dirty := c1.dirty[p := true]) else c1
  }

  /** The demand loop: one step per blockSize, starting at the request's own offset. */
  function Fill(c: Cache, offset: nat, end: nat, markDirty: bool): (r: Cache)
    requires c.Valid() && (offset < end ==> end <= c.DieSize())
    ensures r.Valid() && c.SameDevice(r)
    decreases end - offset
  {
    if offset >= end then c
    else
      BlockInRange(c, offset);
      Fill(FillBlock(c, BlockOf(c.blockSize, offset), markDirty), offset + c.blockSize, end, markDirty)
  }

  lemma BlockInRange(c: Cache, offset: nat)
    requires c.Valid() && offset < c.DieSize()
    ensures BlockOf(c.blockSize, offset) < |c.blocks|
  {
    var q := offset / c.blockSize;
    assert offset == c.blockSize * q + offset % c.blockSize;
    MulSign(c.blockSize, q - |c.blocks|);
    assert c.blockSize * (q - |c.blocks|) == c.blockSize * q - c.blockSize * |c.blocks|;
  }

  function ReadBlock(c: Cache, offset: nat, count: nat): (r: (Cache, seq<byte>))
    requires c.Valid() && offset + count <= c.DieSize()
    ensures r.0.Valid()
  {
    var c1 := Fill(c, offset, offset + count, false);
    (c1, c1.data[offset..offset + count])
  }

  function WriteBlock(c: Cache, offset: nat, src: seq<byte>): (r: Cache)
    requires c.Valid() && offset + |src| <= c.DieSize()
    ensures r.Valid()
  {
    var c1 := Fill(c.(dirtyFlag := true), offset, offset + |src|, true);
    c1.(data := Splice(c1.data, offset, src))
  }

  // ------------------------------------------------------------- which blocks are filled

  /** The logical blocks that the demand loop steps on. */
  ghost function Visits(blockSize: nat, offset: nat, end: nat): set<nat>
    requires blockSize > 0
    decreases end - offset
  {
    if offset >= end then {} else {BlockOf(blockSize, offset)} + Visits(blockSize, offset + blockSize, end)
  }

  /** The physical blocks behind them. */
  ghost function Loads(c: Cache, offset: nat, end: nat): set<nat>
    requires c.Valid() && (offset < end ==> end <= c.DieSize())
    decreases end - offset
  {
    if offset >= end then {}
    else
      BlockInRange(c, offset);
      {c.blocks[BlockOf(c.blockSize, offset)]} + Loads(c, offset + c.blockSize, end)
  }

  lemma BlockBelow(c: Cache, i: nat)
    requires c.Valid() && i < |c.data|
    ensures BlockOf(c.blockSize, i) < c.total
  {
    var q := i / c.blockSize;
    assert i == c.blockSize * q + i % c.blockSize;
    MulSign(c.blockSize, q - c.total);
    assert c.blockSize * (q - c.total) == c.blockSize * q - c.blockSize * c.total;
  }

  /** c with the given physical blocks brought in, and marked if asked. */
  ghost function Brought(c: Cache, loads: set<nat>, markDirty: bool): (r: Cache)
    requires c.Valid()
    ensures r.Valid() && c.SameDevice(r)
  {
    c.(inCache := seq(c.total, p requires 0 <= p < c.total => c.inCache[p] || p in loads),
       dirty := seq(c.total, p requires 0 <= p < c.total => c.dirty[p] || (markDirty && p in loads)),
       data := seq(|c.data|, i requires 0 <= i < |c.data| => BroughtByte(c, loads, i)))
  }

  ghost function BroughtByte(c: Cache, loads: set<nat>, i: nat): byte
    requires c.Valid() && i < |c.data|
  {
    BlockBelow(c, i);
    var p := BlockOf(c.blockSize, i);
    if p in loads && !c.inCache[p] then c.flash[i] else c.data[i]
  }

  lemma BroughtNone(c: Cache, markDirty: bool)
    requires c.Valid()
    ensures Brought(c, {}, markDirty) == c
  {
  }

  lemma BroughtOne(c: Cache, l: nat, markDirty: bool)
    requires c.Valid() && l < |c.blocks|
    ensures FillBlock(c, l, markDirty) == Brought(c, {c.blocks[l]}, markDirty)
  {
    var p, r, b := c.blocks[l], FillBlock(c, l, markDirty), Brought(c, {c.blocks[l]}, markDirty);
    assert r.inCache == b.inCache && r.dirty == b.dirty;
    assert r.data == b.data;
  }

  lemma BroughtTwice(c: Cache, first: set<nat>, second: set<nat>, markDirty: bool)
    requires c.Valid()
    ensures Brought(Brought(c, first, markDirty), second, markDirty) == Brought(c, first + second, markDirty)
  {
    var m := Brought(c, first, markDirty);
    var r, b := Brought(m, second, markDirty), Brought(c, first + second, markDirty);
    assert r.inCache == b.inCache;
    assert r.dirty == b.dirty;
    forall i | 0 <= i < |c.data|
      ensures r.data[i] == b.data[i]
    {
      BlockBelow(c, i);
    }
    assert r.data == b.data;
  }

  lemma BroughtAfterFill(c: Cache, l: nat, rest: set<nat>, markDirty: bool)
    requires c.Valid() && l < |c.blocks|
    ensures Brought(FillBlock(c, l, markDirty), rest, markDirty) == Brought(c, {c.blocks[l]} + rest, markDirty)
  {
    BroughtOne(c, l, markDirty);
    BroughtTwice(c, {c.blocks[l]}, rest, markDirty);
  }

  lemma LoadsStep(c: Cache, offset: nat, end: nat, l: nat, rest: set<nat>)
    requires c.Valid() && offset < end <= c.DieSize() && l == BlockOf(c.blockSize, offset) < |c.blocks|
    requires rest == Loads(c, offset + c.blockSize, end)
    ensures Loads(c, offset, end) == {c.blocks[l]} + rest
  {
  }

  lemma FillStep(c: Cache, offset: nat, end: nat, markDirty: bool, l: nat, result: Cache)
    requires c.Valid() && offset < end <= c.DieSize() && l == BlockOf(c.blockSize, offset) < |c.blocks|
    requires Fill(FillBlock(c, l, markDirty), offset + c.blockSize, end, markDirty) == result
    ensures Fill(c, offset, end, markDirty) == result
  {
  }

  lemma {:induction false} FillEffect(c: Cache, offset: nat, end: nat, markDirty: bool)
    requires c.Valid() && (offset < end ==> end <= c.DieSize())
    ensures Fill(c, offset, end, markDirty) == Brought(c, Loads(c, offset, end), markDirty)
    decreases end - offset
  {
    if offset >= end {
      BroughtNone(c, markDirty);
    } else {
      BlockInRange(c, offset);
      var l, next := BlockOf(c.blockSize, offset), offset + c.blockSize;
      var m := FillBlock(c, l, markDirty);
      FillEffect(m, next, end, markDirty);
      LoadsSame(c, m, next, end);
      var rest := Loads(c, next, end);
      BroughtAfterFill(c, l, rest, markDirty);
      LoadsStep(c, offset, end, l, rest);
      FillStep(c, offset, end, markDirty, l, Brought(m, rest, markDirty));
    }
  }

  lemma {:induction false} LoadsSame(c: Cache, m: Cache, offset: nat, end: nat)
    requires c.Valid() && m.Valid() && m.blocks == c.blocks && m.blockSize == c.blockSize && m.total == c.total
    requires offset < end ==> end <= c.DieSize()
    ensures Loads(c, offset, end) == Loads(m, offset, end)
    decreases end - offset
  {
    if offset < end {
      LoadsSame(c, m, offset + c.blockSize, end);
    }
  }

  lemma {:induction false} LoadsOffered(c: Cache, offset: nat, end: nat)
    requires c.Valid() && (offset < end ==> end <= c.DieSize())
    ensures forall p :: p in Loads(c, offset, end) ==> p in c.blocks
    decreases end - offset
  {
    if offset < end {
      BlockInRange(c, offset);
      LoadsOffered(c, offset + c.blockSize, end);
    }
  }

  lemma WriteBrings(c: Cache, start: Cache, offset: nat, src: seq<byte>, end: nat)
    requires c.Valid() && end == offset + |src| <= c.DieSize() && start == c.(dirtyFlag := true)
    ensures var b := Brought(start, Loads(start, offset, end), true);
            WriteBlock(c, offset, src) == b.(data := Splice(b.data, offset, src))
  {
    FillEffect(start, offset, end, true);
    var b := Fill(start, offset, end, true);
    assert WriteBlock(c, offset, src) == b.(data := Splice(b.data, offset, src));
  }

  // ------------------------------------------------------------------------ coverage

  /** The offset within the first block and the remainder of the length do not carry. */
  predicate NoCarry(blockSize: nat, offset: nat, count: nat)
    requires blockSize > 0
  {
    count == 0 || offset % blockSize + (count - 1) % blockSize < blockSize
  }

  lemma {:induction false} VisitsAre(blockSize: nat, offset: nat, end: nat, l: nat)
    requires blockSize > 0
    ensures l in Visits(blockSize, offset, end) <==>
            BlockOf(blockSize, offset) <= l && offset + (l - BlockOf(blockSize, offset)) * blockSize < end
    decreases end - offset
  {
    var first := BlockOf(blockSize, offset);
    NextBlockOf(blockSize, offset);
    if offset < end {
      VisitsAre(blockSize, offset + blockSize, end, l);
      if l > first {
        assert (l - first) * blockSize == (l - first - 1) * blockSize + blockSize;
      }
    } else if first <= l {
      assert (l - first) * blockSize >= 0;
    }
  }

  lemma NextBlockOf(blockSize: nat, offset: nat)
    requires blockSize > 0
    ensures BlockOf(blockSize, offset + blockSize) == BlockOf(blockSize, offset) + 1
  {
    var q := offset / blockSize;
    assert offset == blockSize * q + offset % blockSize;
    DivModUnique(offset + blockSize, blockSize, q + 1, offset % blockSize);
  }

  /** The block of the request's last byte, relative to its first block. */
  lemma LastBlock(blockSize: nat, offset: nat, count: nat)
    requires blockSize > 0 && count > 0
    ensures BlockOf(blockSize, offset + count - 1) ==
            BlockOf(blockSize, offset) + (count - 1) / blockSize + (if NoCarry(blockSize, offset, count) then 0 else 1)
  {
    var q, r := offset / blockSize, offset % blockSize;
    var k, t := (count - 1) / blockSize, (count - 1) % blockSize;
    assert offset == blockSize * q + r && count - 1 == blockSize * k + t;
    if r + t < blockSize {
      assert offset + count - 1 == blockSize * (q + k) + (r + t);
      DivModUnique(offset + count - 1, blockSize, q + k, r + t);
    } else {
      assert offset + count - 1 == blockSize * (q + k + 1) + (r + t - blockSize);
      DivModUnique(offset + count - 1, blockSize, q + k + 1, r + t - blockSize);
    }
  }

  lemma BlockOfMonotone(blockSize: nat, a: nat, b: nat)
    requires blockSize > 0 && a <= b
    ensures BlockOf(blockSize, a) <= BlockOf(blockSize, b)
  {
    var q, p := a / blockSize, b / blockSize;
    assert a == blockSize * q + a % blockSize && b == blockSize * p + b % blockSize;
    MulSign(blockSize, q - p);
    assert blockSize * (q - p) == blockSize * q - blockSize * p;
  }

  /** A block at distance d from the first is stepped on exactly up to the quotient of the length. */
  lemma VisitedUpTo(blockSize: nat, offset: nat, count: nat, d: nat)
    requires blockSize > 0 && count > 0
    ensures BlockOf(blockSize, offset) + d in Visits(blockSize, offset, offset + count) <==> d <= (count - 1) / blockSize
  {
    VisitsAre(blockSize, offset, offset + count, BlockOf(blockSize, offset) + d);
    var k, t := (count - 1) / blockSize, (count - 1) % blockSize;
    assert count - 1 == blockSize * k + t;
    MulSign(blockSize, d - k);
    assert blockSize * (d - k) == d * blockSize - blockSize * k;
  }

  ghost predicate Covered(blockSize: nat, offset: nat, count: nat)
    requires blockSize > 0
  {
    forall i :: offset <= i < offset + count ==> BlockOf(blockSize, i) in Visits(blockSize, offset, offset + count)
  }

  /** The demand loop brings in every block of the request exactly when nothing carries. */
  lemma CoveredIff(blockSize: nat, offset: nat, count: nat)
    requires blockSize > 0
    ensures Covered(blockSize, offset, count) <==> NoCarry(blockSize, offset, count)
  {
    if count > 0 {
      var first, last := BlockOf(blockSize, offset), BlockOf(blockSize, offset + count - 1);
      LastBlock(blockSize, offset, count);
      VisitedUpTo(blockSize, offset, count, last - first);
      if NoCarry(blockSize, offset, count) {
        forall i | offset <= i < offset + count
          ensures BlockOf(blockSize, i) in Visits(blockSize, offset, offset + count)
        {
          BlockOfMonotone(blockSize, offset, i);
          BlockOfMonotone(blockSize, i, offset + count - 1);
          VisitedUpTo(blockSize, offset, count, BlockOf(blockSize, i) - first);
        }
      }
    }
  }

  lemma BlocksOn(blockSize: nat, q: nat, r: nat, d: nat, i: nat)
    requires r < blockSize && i == blockSize * q + r + d * blockSize
    ensures BlockOf(blockSize, i) == q + d
  {
    assert i == blockSize * (q + d) + r;
    DivModUnique(i, blockSize, q + d, r);
  }

  /** Blocks that the loop steps on do belong to the request. */
  lemma VisitedIsTouched(blockSize: nat, offset: nat, count: nat, l: nat) returns (i: nat)
    requires blockSize > 0 && l in Visits(blockSize, offset, offset + count)
    ensures offset <= i < offset + count && BlockOf(blockSize, i) == l
  {
    VisitsAre(blockSize, offset, offset + count, l);
    var q, r := offset / blockSize, offset % blockSize;
    var d: nat := l - q;
    var far: nat := d * blockSize;
    i := offset + far;
    BlocksOn(blockSize, q, r, d, i);
  }

  // -------------------------------------------------------- the device as a flat array

  /** The first k logical blocks are kept in the physical blocks of the same number. */
  ghost predicate HomeUpTo(c: Cache, k: nat) {
    k <= |c.blocks| <= c.total && forall l :: 0 <= l < k ==> c.blocks[l] == l
  }

  /** Only the first k blocks are dirty, and these are cached. */
  ghost predicate Sound(c: Cache, k: nat)
    requires c.Valid()
  {
    HomeUpTo(c, k) && forall p :: 0 <= p < c.total && c.dirty[p] ==> c.inCache[p] && p < k
  }

  /** Moreover cached clean blocks equal the flash, and without the flag nothing is dirty. */
  ghost predicate Coherent(c: Cache, k: nat)
    requires c.Valid()
  {
    && Sound(c, k)
    && (forall p :: 0 <= p < c.total && c.dirty[p] ==> c.dirtyFlag)
    && (forall i: nat :: i < |c.data| ==> CleanByte(c, i))
  }

  ghost predicate CleanByte(c: Cache, i: nat)
    requires c.Valid() && i < |c.data|
  {
    BlockBelow(c, i);
    var p := BlockOf(c.blockSize, i);
    c.inCache[p] && !c.dirty[p] ==> c.data[i] == c.flash[i]
  }

  ghost function LogicalByte(c: Cache, i: nat): byte
    requires c.Valid() && i < |c.data|
  {
    BlockBelow(c, i);
    if c.inCache[BlockOf(c.blockSize, i)] then c.data[i] else c.flash[i]
  }

  /** What the device holds: the cached bytes where there are any, the flash elsewhere. */
  ghost function Logical(c: Cache): (s: seq<byte>)
    requires c.Valid()
    ensures |s| == |c.data|
  {
    seq(|c.data|, i requires 0 <= i < |c.data| => LogicalByte(c, i))
  }

  /** Offsets below blockSize * k are in the first k blocks and on the device. */
  lemma BlockBelowBound(blockSize: nat, k: nat, offset: nat)
    requires blockSize > 0 && offset < blockSize * k
    ensures BlockOf(blockSize, offset) < k
  {
    var q := offset / blockSize;
    assert offset == blockSize * q + offset % blockSize;
    MulSign(blockSize, q - k);
    assert blockSize * (q - k) == blockSize * q - blockSize * k;
  }

  lemma HomeOnDevice(c: Cache, k: nat)
    requires c.Valid() && HomeUpTo(c, k)
    ensures c.blockSize * k <= c.DieSize() <= |c.data|
  {
    var rest := |c.blocks| - k;
    assert c.blockSize * |c.blocks| == c.blockSize * k + c.blockSize * rest;
    assert c.blockSize * rest >= 0;
  }

  lemma {:induction false} LoadsAreVisits(c: Cache, k: nat, offset: nat, end: nat)
    requires c.Valid() && HomeUpTo(c, k) && end <= c.blockSize * k <= c.DieSize()
    ensures Loads(c, offset, end) == Visits(c.blockSize, offset, end)
    decreases end - offset
  {
    if offset < end {
      BlockInRange(c, offset);
      BlockBelowBound(c.blockSize, k, offset);
      LoadsAreVisits(c, k, offset + c.blockSize, end);
    }
  }

  /** The blocks stepped on are among the first k. */
  lemma {:induction false} VisitsBelow(blockSize: nat, k: nat, offset: nat, end: nat)
    requires blockSize > 0 && end <= blockSize * k
    ensures forall p :: p in Visits(blockSize, offset, end) ==> p < k
    decreases end - offset
  {
    if offset < end {
      BlockBelowBound(blockSize, k, offset);
      VisitsBelow(blockSize, k, offset + blockSize, end);
    }
  }

  lemma BroughtSame(c: Cache, loads: set<nat>, markDirty: bool)
    requires c.Valid()
    ensures Logical(Brought(c, loads, markDirty)) == Logical(c)
  {
    var r := Brought(c, loads, markDirty);
    forall i: nat | i < |c.data|
      ensures LogicalByte(r, i) == LogicalByte(c, i)
    {
      BlockBelow(c, i);
    }
  }

  lemma BroughtSound(c: Cache, k: nat, loads: set<nat>, markDirty: bool)
    requires c.Valid() && Sound(c, k) && (markDirty ==> forall p :: p in loads ==> p < k)
    ensures Sound(Brought(c, loads, markDirty), k)
  {
  }

  lemma BroughtCoherent(c: Cache, k: nat, loads: set<nat>, markDirty: bool)
    requires c.Valid() && Coherent(c, k) && (markDirty ==> c.dirtyFlag && forall p :: p in loads ==> p < k)
    ensures Coherent(Brought(c, loads, markDirty), k)
  {
    var r := Brought(c, loads, markDirty);
    BroughtSound(c, k, loads, markDirty);
    forall i: nat | i < |c.data|
      ensures CleanByte(r, i)
    {
      BlockBelow(c, i);
      assert CleanByte(c, i);
    }
  }

  /** A block that is brought in shows what the device holds. */
  lemma BroughtShows(c: Cache, loads: set<nat>, markDirty: bool, i: nat)
    requires c.Valid() && i < |c.data| && BlockOf(c.blockSize, i) in loads
    ensures Brought(c, loads, markDirty).data[i] == LogicalByte(c, i)
  {
    BlockBelow(c, i);
  }

  lemma FillHome(c: Cache, k: nat, offset: nat, end: nat, markDirty: bool)
    requires c.Valid() && HomeUpTo(c, k) && end <= c.blockSize * k <= c.DieSize()
    ensures Fill(c, offset, end, markDirty) == Brought(c, Visits(c.blockSize, offset, end), markDirty)
  {
    FillEffect(c, offset, end, markDirty);
    LoadsAreVisits(c, k, offset, end);
  }

  lemma ReadHome(c: Cache, k: nat, offset: nat, count: nat, end: nat)
    requires c.Valid() && HomeUpTo(c, k) && end == offset + count && end <= c.blockSize * k <= c.DieSize()
    ensures var r := Brought(c, Visits(c.blockSize, offset, end), false);
            ReadBlock(c, offset, count) == (r, r.data[offset..end])
  {
    FillHome(c, k, offset, end, false);
    var m := Fill(c, offset, end, false);
    assert ReadBlock(c, offset, count) == (m, m.data[offset..end]);
  }

  /** A read that does not carry returns the device's bytes and changes none of them, whatever went
      wrong before. */
  lemma ReadRefines(c: Cache, k: nat, offset: nat, count: nat)
    requires c.Valid() && Sound(c, k) && offset + count <= c.blockSize * k <= c.DieSize() && NoCarry(c.blockSize, offset, count)
    ensures ReadBlock(c, offset, count).1 == Logical(c)[offset..offset + count]
    ensures var r := ReadBlock(c, offset, count).0;
            Sound(r, k) && Logical(r) == Logical(c) && r.dirty == c.dirty && c.SameDevice(r) && (Coherent(c, k) ==> Coherent(r, k))
  {
    var end := offset + count;
    ReadHome(c, k, offset, count, end);
    var visits := Visits(c.blockSize, offset, end);
    BroughtSame(c, visits, false);
    BroughtSound(c, k, visits, false);
    if Coherent(c, k) {
      BroughtCoherent(c, k, visits, false);
    }
    BroughtUnmarked(c, visits);
    CoveredIff(c.blockSize, offset, count);
    var r := Brought(c, visits, false);
    forall i: nat | offset <= i < end
      ensures r.data[i] == Logical(c)[i]
    {
      BroughtShows(c, visits, false, i);
    }
    assert r.data[offset..end] == Logical(c)[offset..end];
  }

  lemma BroughtUnmarked(c: Cache, loads: set<nat>)
    requires c.Valid()
    ensures Brought(c, loads, false).dirty == c.dirty
  {
  }

  ghost predicate Touches(blockSize: nat, offset: nat, count: nat, p: nat)
    requires blockSize > 0
  {
    exists i :: offset <= i < offset + count && BlockOf(blockSize, i) == p
  }

  lemma VisitsAreTouched(blockSize: nat, offset: nat, count: nat, p: nat)
    requires blockSize > 0 && NoCarry(blockSize, offset, count)
    ensures p in Visits(blockSize, offset, offset + count) <==> Touches(blockSize, offset, count, p)
  {
    CoveredIff(blockSize, offset, count);
    if p in Visits(blockSize, offset, offset + count) {
      var i := VisitedIsTouched(blockSize, offset, count, p);
    }
  }

  lemma RaiseFlag(c: Cache, k: nat)
    requires c.Valid() && Sound(c, k)
    ensures var r := c.(dirtyFlag := true);
            r.Valid() && Sound(r, k) && Logical(r) == Logical(c) && (Coherent(c, k) ==> Coherent(r, k))
  {
    var r := c.(dirtyFlag := true);
    forall i: nat | i < |c.data|
      ensures (CleanByte(c, i) ==> CleanByte(r, i)) && LogicalByte(r, i) == LogicalByte(c, i)
    {
    }
  }

  /** Overwriting bytes of dirty blocks. */
  lemma SpliceDirty(m: Cache, k: nat, offset: nat, src: seq<byte>)
    requires m.Valid() && Sound(m, k) && offset + |src| <= |m.data|
    requires forall i: nat :: offset <= i < offset + |src| ==> BlockOf(m.blockSize, i) < m.total && m.dirty[BlockOf(m.blockSize, i)]
    ensures var r := m.(data := Splice(m.data, offset, src));
            && r.Valid() && Sound(r, k) && Logical(r) == Splice(Logical(m), offset, src)
            && (Coherent(m, k) ==> Coherent(r, k))
  {
    var r := m.(data := Splice(m.data, offset, src));
    forall i: nat | i < |m.data|
      ensures (CleanByte(m, i) ==> CleanByte(r, i)) && LogicalByte(r, i) == Splice(Logical(m), offset, src)[i]
    {
      BlockBelow(m, i);
    }
  }

  lemma BroughtMarked(c: Cache, loads: set<nat>, p: nat)
    requires c.Valid() && p < c.total
    ensures Brought(c, loads, true).dirty[p] <==> c.dirty[p] || p in loads
  {
  }

  /** The cache just before a write's bytes are stored: its blocks are in, and dirty. */
  ghost function Marked(c: Cache, offset: nat, count: nat): (m: Cache)
    requires c.Valid()
    ensures m.Valid() && c.(dirtyFlag := true).SameDevice(m)
  {
    Brought(c.(dirtyFlag := true), Visits(c.blockSize, offset, offset + count), true)
  }

  lemma WriteIsSplice(c: Cache, k: nat, offset: nat, src: seq<byte>)
    requires c.Valid() && HomeUpTo(c, k) && offset + |src| <= c.blockSize * k <= c.DieSize()
    ensures var m := Marked(c, offset, |src|); WriteBlock(c, offset, src) == m.(data := Splice(m.data, offset, src))
  {
    FillHome(c.(dirtyFlag := true), k, offset, offset + |src|, true);
  }

  /** A write marks just the blocks its bytes are in. */
  lemma WriteMarks(c: Cache, offset: nat, count: nat, p: nat)
    requires c.Valid() && NoCarry(c.blockSize, offset, count) && p < c.total
    ensures Marked(c, offset, count).dirty[p] <==> c.dirty[p] || Touches(c.blockSize, offset, count, p)
  {
    VisitsAreTouched(c.blockSize, offset, count, p);
    BroughtMarked(c.(dirtyFlag := true), Visits(c.blockSize, offset, offset + count), p);
  }

  lemma MarkedSound(c: Cache, k: nat, offset: nat, count: nat)
    requires c.Valid() && Sound(c, k) && offset + count <= c.blockSize * k
    ensures var m := Marked(c, offset, count);
            Sound(m, k) && Logical(m) == Logical(c) && (Coherent(c, k) ==> Coherent(m, k))
  {
    var visits := Visits(c.blockSize, offset, offset + count);
    RaiseFlag(c, k);
    VisitsBelow(c.blockSize, k, offset, offset + count);
    BroughtSame(c.(dirtyFlag := true), visits, true);
    BroughtSound(c.(dirtyFlag := true), k, visits, true);
    if Coherent(c, k) {
      BroughtCoherent(c.(dirtyFlag := true), k, visits, true);
    }
  }

  /** A write that does not carry overwrites just its own bytes. */
  lemma WriteRefines(c: Cache, k: nat, offset: nat, src: seq<byte>)
    requires c.Valid() && Sound(c, k) && offset + |src| <= c.blockSize * k <= c.DieSize() && NoCarry(c.blockSize, offset, |src|)
    ensures var r := WriteBlock(c, offset, src);
            && Sound(r, k) && Logical(r) == Splice(Logical(c), offset, src) && c.(dirtyFlag := true).SameDevice(r)
            && (Coherent(c, k) ==> Coherent(r, k))
    ensures WriteBlock(c, offset, src).dirty == Marked(c, offset, |src|).dirty
  {
    var m := Marked(c, offset, |src|);
    WriteIsSplice(c, k, offset, src);
    MarkedSound(c, k, offset, |src|);
    HomeOnDevice(c, k);
    forall i: nat | offset <= i < offset + |src|
      ensures BlockOf(m.blockSize, i) < m.total && m.dirty[BlockOf(m.blockSize, i)]
    {
      BlockBelow(c, i);
      WriteMarks(c, offset, |src|, BlockOf(c.blockSize, i));
    }
    SpliceDirty(m, k, offset, src);
  }
}
