/** The boot image as the boot service sees it, and the memory operations of a download. */
module BootImage {
  import Pmp
  import opened Sequences

  type byte = bv8

  const SUB_CHUNK: nat := 256
  const ANCILLARY: nat := 0x80

  datatype Chunk = Chunk(owner: nat, loadAddr: nat, execAddr: nat, size: nat)

  datatype ZiChunk = ZiChunk(owner: nat, execAddr: nat, size: nat)

  datatype Hart = Hart(
    entryPoint: nat, skipOpenSbi: bool, skipAutoboot: bool, allowCold: bool, allowWarm: bool,
    numChunks: nat, firstChunk: nat, lastChunk: nat)
  {
    /** Has chunks of its own and somewhere to start. */
    predicate Primary() {
      numChunks != 0 && entryPoint != 0
    }
  }

  /** An image at address base; both tables end in a descriptor of size 0.  Harts are numbered 1 to 4. */
  datatype Image = Image(base: nat, chunks: seq<Chunk>, ziChunks: seq<ZiChunk>, harts: seq<Hart>, pmp: seq<seq<Pmp.Entry>>) {
    ghost predicate Valid() {
      && |harts| == 4 && |pmp| == 5
      && chunks != [] && chunks[|chunks| - 1].size == 0
      && ziChunks != [] && ziChunks[|ziChunks| - 1].size == 0
      && forall k :: 0 <= k < 4 && harts[k].numChunks != 0 ==> harts[k].firstChunk < |chunks|
    }

    function Hart(h: nat): Hart
      requires 1 <= h <= |harts|
    {
      harts[h - 1]
    }
  }

  predicate IsHart(h: nat) {
    1 <= h <= 4
  }

  /** Harts with one entry point form a boot set. */
  ghost predicate SameEntry(img: Image, a: nat, b: nat)
    requires img.Valid() && IsHart(a) && IsHart(b)
  {
    img.Hart(a).entryPoint == img.Hart(b).entryPoint
  }

  /** The owner field with the ancillary-data flag masked off names the hart. */
  predicate Owned(c: Chunk, h: nat) {
    c.owner == h || c.owner == h + ANCILLARY
  }

  /** Bit 7 marks ancillary data and the bits below it name the hart. */
  lemma OwnedIff(c: Chunk, h: nat)
    requires IsHart(h)
    ensures Owned(c, h) <==> c.owner < 0x100 && c.owner % 0x80 == h
    ensures Owned(c, h) ==> (c.owner >= ANCILLARY <==> c.owner / 0x80 == 1)
  {
  }

  /** Owned, and the first matching protection entry of the hart does not forbid the write. */
  ghost predicate Mine(img: Image, h: nat, c: Chunk)
    requires img.Valid() && IsHart(h)
  {
    Owned(c, h) && Pmp.MayWrite(img.pmp[h], c.execAddr, c.size)
  }

  // -------------------------------------------------------------------------- memory

  function ByteAt(mem: seq<byte>, a: nat): byte {
    if a < |mem| then mem[a] else 0
  }

  function CopyBytes(mem: seq<byte>, to: nat, from: nat, n: nat): (r: seq<byte>)
    ensures |r| == |mem|
  {
    seq(|mem|, a requires 0 <= a < |mem| => if to <= a < to + n then ByteAt(mem, from + (a - to)) else mem[a])
  }

  function ZeroBytes(mem: seq<byte>, at: nat, n: nat): (r: seq<byte>)
    ensures |r| == |mem|
  {
    seq(|mem|, a requires 0 <= a < |mem| => if at <= a < at + n then 0 else mem[a])
  }

  // ------------------------------------------------------- what a hart downloads

  /** The chunks downloaded from table index i on, when k have been downloaded before: owned and
      permitted ones, up to the first descriptor of size 0, while the running count does not exceed
      lastChunk. */
  ghost function Plan(img: Image, h: nat, i: nat, k: nat): seq<nat>
    requires img.Valid() && IsHart(h)
    decreases |img.chunks| - i
  {
    if i >= |img.chunks| || k > img.Hart(h).lastChunk || img.chunks[i].size == 0 then []
    else if Mine(img, h, img.chunks[i]) then [i] + Plan(img, h, i + 1, k + 1)
    else Plan(img, h, i + 1, k)
  }

  ghost function Selected(img: Image, h: nat): seq<nat>
    requires img.Valid() && IsHart(h)
  {
    if img.Hart(h).numChunks == 0 then [] else Plan(img, h, img.Hart(h).firstChunk, 0)
  }

  /** The bytes that downloading a chunk writes: whole sub-chunks, one more than fit. */
  function Padded(size: nat): nat {
    SUB_CHUNK * (size / SUB_CHUNK + 1)
  }

  /** All bytes that downloading a permitted chunk writes may be written, if none of them is first held
      by an entry other than the one that decided the check. */
  lemma WindowWritable(img: Image, h: nat, c: Chunk)
    requires img.Valid() && IsHart(h) && Mine(img, h, c)
    requires Pmp.OneEntry(img.pmp[h], c.execAddr, c.size, Padded(c.size))
    ensures Pmp.BytesWritable(img.pmp[h], c.execAddr, Padded(c.size))
  {
    var table := img.pmp[h];
    var grants := seq(|table|, i requires 0 <= i < |table| => table[i].w);
    Pmp.CheckSufficesIff(table, c.execAddr, c.size, Padded(c.size));
    assert Pmp.Granting(table, grants) == table;
  }

  /** Without that condition it can go wrong: three decoded entries, one inactive, one of 300 bytes that
      may be written and one of 300 that may not; a permitted chunk whose padding runs into the last,
      and a byte of it there. */
  lemma PaddingEscapesCheck()
    ensures var off := Pmp.Entry(0, 0, Pmp.Off, false, false, false, false);
            var e1 := Pmp.Decoded([off], off, 0x0B, 75);
            var e2 := Pmp.Decoded([off, e1], off, 0x09, 150);
            var table := [off, e1, e2];
            && Pmp.MayWrite(table, 0, 299) && 0 <= 400 < Padded(299) == 512
            && Pmp.Matches(table, 2, 400) && !Pmp.BytesWritable(table, 0, Padded(299))
  {
    var off := Pmp.Entry(0, 0, Pmp.Off, false, false, false, false);
    var e1 := Pmp.Entry(0, 300, Pmp.Tor, true, true, false, false);
    var e2 := Pmp.Entry(300, 300, Pmp.Tor, true, false, false, false);
    Pmp.TorConfigs();
    Pmp.TorDecodes(0x0B, true, 75, [off], off);
    Pmp.TorDecodes(0x09, false, 150, [off, e1], off);
    var table := [off, e1, e2];
    assert Pmp.Covers(table[1], 0, 299);
    assert Pmp.Matches(table, 2, 400) && !table[2].w;
  }

  ghost predicate InWindow(c: Chunk, a: nat) {
    c.execAddr <= a < c.execAddr + Padded(c.size)
  }

  ghost predicate InData(c: Chunk, a: nat) {
    c.execAddr <= a < c.execAddr + c.size
  }

  /** The image byte that belongs at address a of the chunk. */
  function Source(img: Image, c: Chunk, a: nat): nat
    requires c.execAddr <= a
  {
    img.base + c.loadAddr + (a - c.execAddr)
  }

  /** Zero-initialized descriptors before the first one of size 0. */
  ghost predicate ZiListed(img: Image, j: nat)
    requires img.Valid()
  {
    j < |img.ziChunks| && forall k :: 0 <= k <= j ==> img.ziChunks[k].size != 0
  }

  ghost predicate InZi(z: ZiChunk, a: nat) {
    z.execAddr <= a < z.execAddr + z.size
  }

  /** Address a is in the window of a chunk that hart h downloads. */
  ghost predicate HartWindow(img: Image, h: nat, a: nat)
    requires img.Valid() && IsHart(h)
  {
    exists i :: i in Selected(img, h) && i < |img.chunks| && InWindow(img.chunks[i], a)
  }

  ghost predicate HartZi(img: Image, h: nat, a: nat)
    requires img.Valid()
  {
    exists j: nat :: ZiListed(img, j) && img.ziChunks[j].owner == h && InZi(img.ziChunks[j], a)
  }

  ghost predicate AnyWindow(img: Image, a: nat)
    requires img.Valid()
  {
    exists h: nat :: IsHart(h) && HartWindow(img, h, a)
  }

  ghost predicate AnyZi(img: Image, a: nat)
    requires img.Valid()
  {
    exists h: nat :: IsHart(h) && HartZi(img, h, a)
  }

  /** Padded windows are disjoint from each other, from the zeroed regions of other harts, and
      from the image bytes; zeroed regions are disjoint from the image bytes too. */
  ghost predicate Disjoint(img: Image)
    requires img.Valid()
  {
    && (forall h: nat, g: nat, i: nat, j: nat, a: nat ::
          (IsHart(h) && IsHart(g) && i in Selected(img, h) && j in Selected(img, g) && (h, i) != (g, j)
           && i < |img.chunks| && j < |img.chunks| && InWindow(img.chunks[i], a)) ==> !InWindow(img.chunks[j], a))
    && (forall h: nat, g: nat, a: nat ::
          (IsHart(h) && IsHart(g) && h != g && HartWindow(img, h, a)) ==> !HartZi(img, g, a))
    && (forall h: nat, i: nat, a: nat ::
          (IsHart(h) && i in Selected(img, h) && i < |img.chunks| && InData(img.chunks[i], a)) ==>
            !AnyWindow(img, Source(img, img.chunks[i], a)) && !AnyZi(img, Source(img, img.chunks[i], a)))
  }

  lemma {:induction false} PlanIndices(img: Image, h: nat, i: nat, k: nat)
    requires img.Valid() && IsHart(h)
    ensures forall c :: c in Plan(img, h, i, k) ==> i <= c < |img.chunks| && Mine(img, h, img.chunks[c]) && img.chunks[c].size != 0
    ensures Increasing(Plan(img, h, i, k))
    decreases |img.chunks| - i
  {
    if i < |img.chunks| && k <= img.Hart(h).lastChunk && img.chunks[i].size != 0 {
      if Mine(img, h, img.chunks[i]) {
        PlanIndices(img, h, i + 1, k + 1);
        Prepend(i, Plan(img, h, i + 1, k + 1));
      } else {
        PlanIndices(img, h, i + 1, k);
      }
    }
  }

  /** How many of the chunks i, .., c - 1 belong to the hart. */
  ghost function MineBetween(img: Image, h: nat, i: nat, c: nat): nat
    requires img.Valid() && IsHart(h) && c <= |img.chunks|
    decreases c - i
  {
    if i >= c then 0 else (if Mine(img, h, img.chunks[i]) then 1 else 0) + MineBetween(img, h, i + 1, c)
  }

  /** lastChunk bounds a count of downloaded chunks, not a table index: a chunk is downloaded exactly
      if it belongs to the hart, comes before the end of the table, and at most lastChunk of the
      hart's chunks precede it. */
  lemma {:induction false} PlannedIff(img: Image, h: nat, i: nat, k: nat, c: nat)
    requires img.Valid() && IsHart(h) && i <= c < |img.chunks|
    ensures c in Plan(img, h, i, k) <==>
            Mine(img, h, img.chunks[c]) && (forall x :: i <= x <= c ==> img.chunks[x].size != 0)
            && k + MineBetween(img, h, i, c) <= img.Hart(h).lastChunk
    decreases |img.chunks| - i
  {
    if k <= img.Hart(h).lastChunk && img.chunks[i].size != 0 {
      var mine := Mine(img, h, img.chunks[i]);
      PlanIndices(img, h, i + 1, if mine then k + 1 else k);
      if i < c {
        PlannedIff(img, h, i + 1, if mine then k + 1 else k, c);
      }
    }
  }

  lemma {:induction false} MineBetweenBounded(img: Image, h: nat, i: nat, c: nat)
    requires img.Valid() && IsHart(h) && i <= c <= |img.chunks|
    ensures MineBetween(img, h, i, c) <= c - i
    decreases c - i
  {
    if i < c {
      MineBetweenBounded(img, h, i + 1, c);
    }
  }

  /** In particular every chunk of the hart between its firstChunk and its lastChunk is downloaded. */
  lemma FirstToLastSelected(img: Image, h: nat, c: nat)
    requires img.Valid() && IsHart(h) && img.Hart(h).numChunks != 0
    requires img.Hart(h).firstChunk <= c <= img.Hart(h).lastChunk && c < |img.chunks|
    requires Mine(img, h, img.chunks[c]) && forall x :: img.Hart(h).firstChunk <= x <= c ==> img.chunks[x].size != 0
    ensures c in Selected(img, h)
  {
    PlannedIff(img, h, img.Hart(h).firstChunk, 0, c);
    MineBetweenBounded(img, h, img.Hart(h).firstChunk, c);
  }
}
