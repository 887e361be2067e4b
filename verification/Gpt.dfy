/** The GUID partition table reader: header check, one-entry-at-a-time fetches through a
    two-sector buffer, a rolling checksum and a resumable search. */
module Gpt {
  import opened Options
  import opened Bits
  import opened Sequences
  import opened Crc32
  import opened Bytes

  // Layout of the header.
  const REVISION: nat := 8
  const HEADER_LENGTH: nat := 12
  const HEADER_CRC: nat := 16
  const CURRENT_LBA: nat := 24
  const STARTING_LBA: nat := 72
  const NUM_PARTITIONS: nat := 80
  const ENTRY_SIZE: nat := 84
  const ENTRIES_CRC: nat := 88
  const HEADER_MIN: nat := 92

  const SIGNATURE: seq<byte> := [0x45, 0x46, 0x49, 0x20, 0x50, 0x41, 0x52, 0x54]
  const EXPECTED_REVISION := 0x0001_0000
  const FIRST_LBA: nat := 32
  const MIN_ENTRY: nat := 128

  datatype Guid = Guid(data1: int, data2: int, data3: int, data4: int)

  const BOOT_GUID := Guid(0x2168_6148, 0x6449, 0x6E6F, 0x4946_4564_6565_4E74)

  function GuidAt(s: seq<byte>, at: nat): Guid
    requires at + 16 <= |s|
  {
    Guid(LE32(s, at), LE16(s, at + 4), LE16(s, at + 6), LE64(s, at + 8))
  }

  /** A disk of whole sectors, some of which may fail to read. */
  datatype Disk = Disk(bytes: seq<byte>, lbaSize: nat, unreadable: set<nat>) {
    predicate Readable(lba: nat) {
      lba !in unreadable && lba * lbaSize + lbaSize <= |bytes|
    }

    /** All sectors that hold the n bytes from the given offset on can be read. */
    predicate ReadableAt(at: nat, n: nat) {
      at + n <= |bytes| && forall s :: s in unreadable ==> s * lbaSize + lbaSize <= at || at + n <= s * lbaSize
    }

    function Sector(lba: nat): (s: seq<byte>)
      requires lba * lbaSize + lbaSize <= |bytes|
      ensures |s| == lbaSize
    {
      bytes[lba * lbaSize..lba * lbaSize + lbaSize]
    }
  }

  /** The header fields that locate the entry array. */
  datatype Layout = Layout(start: nat, count: nat, entrySize: nat, checksum: word)

  function LayoutOf(h: seq<byte>): Layout
    requires |h| >= HEADER_MIN
  {
    Layout(LE64(h, STARTING_LBA), LE32(h, NUM_PARTITIONS), LE32(h, ENTRY_SIZE), WordAt(h, ENTRIES_CRC))
  }

  // ------------------------------------------------------------- where an entry lies

  /** Entries of at least 128 bytes, a whole number to the sector.  Section 5.3.2 of the UEFI Specification
      allows larger ones as well, which this reader does not fetch. */
  ghost predicate Regular(d: Disk, l: Layout) {
    d.lbaSize > 0 && l.entrySize >= MIN_ENTRY && d.lbaSize % l.entrySize == 0
  }

  function LbaOf(d: Disk, l: Layout, i: nat): nat
    requires d.lbaSize > 0
  {
    l.start + (i * l.entrySize) / d.lbaSize
  }

  /** Offset of entry i in the buffer, as the reader computes it from the sector number. */
  function OffsetOf(d: Disk, l: Layout, i: nat, lba: nat): int {
    l.entrySize * i - (lba - l.start) * d.lbaSize
  }

  function ArrayStart(d: Disk, l: Layout): nat {
    l.start * d.lbaSize
  }

  /** The bytes of entry i on the disk. */
  function Entry(d: Disk, l: Layout, i: nat): (e: seq<byte>)
    requires ArrayStart(d, l) + i * l.entrySize + l.entrySize <= |d.bytes|
    ensures |e| == l.entrySize
  {
    d.bytes[ArrayStart(d, l) + i * l.entrySize..ArrayStart(d, l) + i * l.entrySize + l.entrySize]
  }

  lemma OffsetIsRemainder(d: Disk, l: Layout, i: nat)
    requires d.lbaSize > 0
    ensures OffsetOf(d, l, i, LbaOf(d, l, i)) == (i * l.entrySize) % d.lbaSize
    ensures LbaOf(d, l, i) * d.lbaSize + (i * l.entrySize) % d.lbaSize == ArrayStart(d, l) + i * l.entrySize
  {
    var at := i * l.entrySize;
    var q := at / d.lbaSize;
    assert at == d.lbaSize * q + at % d.lbaSize;
    assert l.entrySize * i == at;
    assert (l.start + q) * d.lbaSize == l.start * d.lbaSize + q * d.lbaSize;
  }

  /** In a regular layout no entry straddles two sectors. */
  lemma RegularFits(d: Disk, l: Layout, i: nat)
    requires Regular(d, l)
    ensures (i * l.entrySize) % d.lbaSize + l.entrySize <= d.lbaSize
  {
    var es, n, at := l.entrySize, d.lbaSize / l.entrySize, i * l.entrySize;
    var q, r := at / d.lbaSize, at % d.lbaSize;
    assert d.lbaSize == es * n && at == d.lbaSize * q + r;
    var k := i - n * q;
    assert r == es * k by {
      assert (es * n) * q == es * (n * q);
    }
    MulSign(es, k - n);
    assert es * (k - n) == es * k - es * n;
    assert es * (n - k) >= es by { MulSign(es, n - k); }
  }

  /** The buffer after one sector has been read to its start. */
  function Loaded(buffer: seq<byte>, sector: seq<byte>): (b: seq<byte>)
    requires |sector| <= |buffer|
    ensures |b| == |buffer|
  {
    sector + buffer[|sector|..]
  }

  /** Whatever is on the disk and whatever memory held from the start of the buffer on, the window at
      the computed offset is the entry. */
  ghost predicate AlwaysFetched(lbaSize: nat, l: Layout, i: nat)
    requires lbaSize > 0
  {
    forall d: Disk, buffer: seq<byte> ::
      (d.lbaSize == lbaSize && |buffer| >= lbaSize + l.entrySize && LbaOf(d, l, i) * lbaSize + lbaSize + l.entrySize <= |d.bytes|) ==>
        WindowIsEntry(d, l, i, buffer)
  }

  ghost predicate WindowIsEntry(d: Disk, l: Layout, i: nat, buffer: seq<byte>)
    requires d.lbaSize > 0 && |buffer| >= d.lbaSize + l.entrySize
    requires LbaOf(d, l, i) * d.lbaSize + d.lbaSize + l.entrySize <= |d.bytes|
  {
    OffsetIsRemainder(d, l, i);
    var off := (i * l.entrySize) % d.lbaSize;
    Loaded(buffer, d.Sector(LbaOf(d, l, i)))[off..off + l.entrySize] == Entry(d, l, i)
  }

  /** A disk of zeros and a buffer of ones: a straddling entry picks up an old one. */
  lemma StraddlingEntry(lbaSize: nat, l: Layout, i: nat) returns (d: Disk, buffer: seq<byte>)
    requires lbaSize > 0 && (i * l.entrySize) % lbaSize + l.entrySize > lbaSize
    ensures d.lbaSize == lbaSize && |buffer| >= lbaSize + l.entrySize && LbaOf(d, l, i) * lbaSize + lbaSize + l.entrySize <= |d.bytes|
    ensures !WindowIsEntry(d, l, i, buffer)
  {
    var off := (i * l.entrySize) % lbaSize;
    var lba := l.start + (i * l.entrySize) / lbaSize;
    var size := lba * lbaSize + lbaSize + l.entrySize;
    d := Disk(seq(size, _ => 0), lbaSize, {});
    buffer := seq(lbaSize + l.entrySize, _ => 1);
    OffsetIsRemainder(d, l, i);
    var loaded := Loaded(buffer, d.Sector(lba));
    assert loaded[off..off + l.entrySize][lbaSize - off] == loaded[lbaSize] == 1;
    var e := Entry(d, l, i);
    assert e[lbaSize - off] == 0;
  }

  /** The second sector is never read, because the computed offset is always inside the first:
      an entry is fetched faithfully exactly when it does not straddle. */
  lemma FetchedIffInside(lbaSize: nat, l: Layout, i: nat)
    requires lbaSize > 0
    ensures AlwaysFetched(lbaSize, l, i) <==> (i * l.entrySize) % lbaSize + l.entrySize <= lbaSize
  {
    if (i * l.entrySize) % lbaSize + l.entrySize <= lbaSize {
      forall d: Disk, buffer: seq<byte>
        | d.lbaSize == lbaSize && |buffer| >= lbaSize + l.entrySize && LbaOf(d, l, i) * lbaSize + lbaSize + l.entrySize <= |d.bytes|
        ensures WindowIsEntry(d, l, i, buffer)
      {
        InsideWindow(d, l, i, buffer);
      }
    } else {
      var d, buffer := StraddlingEntry(lbaSize, l, i);
    }
  }

  lemma InsideWindow(d: Disk, l: Layout, i: nat, buffer: seq<byte>)
    requires d.lbaSize > 0 && |buffer| >= d.lbaSize + l.entrySize
    requires LbaOf(d, l, i) * d.lbaSize + d.lbaSize + l.entrySize <= |d.bytes|
    requires (i * l.entrySize) % d.lbaSize + l.entrySize <= d.lbaSize
    ensures WindowIsEntry(d, l, i, buffer)
  {
    InsideSector(d, l, i);
    var off, sector := (i * l.entrySize) % d.lbaSize, d.Sector(LbaOf(d, l, i));
    assert Loaded(buffer, sector)[off..off + l.entrySize] == sector[off..off + l.entrySize];
  }

  /** An entry that does not straddle is a slice of its sector. */
  lemma InsideSector(d: Disk, l: Layout, i: nat)
    requires d.lbaSize > 0 && (i * l.entrySize) % d.lbaSize + l.entrySize <= d.lbaSize
    requires LbaOf(d, l, i) * d.lbaSize + d.lbaSize <= |d.bytes|
    ensures ArrayStart(d, l) + i * l.entrySize + l.entrySize <= |d.bytes|
    ensures var off := (i * l.entrySize) % d.lbaSize;
            d.Sector(LbaOf(d, l, i))[off..off + l.entrySize] == Entry(d, l, i)
  {
    OffsetIsRemainder(d, l, i);
  }

  /** In a regular layout the sector of entry i brings the whole entry into the buffer. */
  lemma RegularFetch(d: Disk, l: Layout, i: nat, before: seq<byte>, buffer: seq<byte>, off: nat)
    requires Regular(d, l) && d.Readable(LbaOf(d, l, i)) && off == OffsetOf(d, l, i, LbaOf(d, l, i))
    requires d.lbaSize <= |before| && buffer == Loaded(before, d.Sector(LbaOf(d, l, i)))
    ensures off == (i * l.entrySize) % d.lbaSize && off + l.entrySize <= d.lbaSize <= |buffer|
    ensures ArrayStart(d, l) + i * l.entrySize + l.entrySize <= |d.bytes|
    ensures buffer[off..off + l.entrySize] == Entry(d, l, i)
  {
    OffsetIsRemainder(d, l, i);
    RegularFits(d, l, i);
    InsideSector(d, l, i);
    assert buffer[off..off + l.entrySize] == d.Sector(LbaOf(d, l, i))[off..off + l.entrySize];
  }

  // ------------------------------------------------------- the array and its searches

  /** All entries can be read. */
  ghost predicate ArrayReadable(d: Disk, l: Layout)
    requires d.lbaSize > 0
  {
    forall i: nat :: i < l.count ==> d.Readable(LbaOf(d, l, i))
  }

  /** The first n entries, as one block of the disk. */
  function EntryArray(d: Disk, l: Layout, n: nat): seq<byte>
    requires n > 0 ==> ArrayStart(d, l) + n * l.entrySize <= |d.bytes|
  {
    if n == 0 then [] else d.bytes[ArrayStart(d, l)..ArrayStart(d, l) + n * l.entrySize]
  }

  lemma EntryFollows(d: Disk, l: Layout, n: nat)
    requires ArrayStart(d, l) + n * l.entrySize + l.entrySize <= |d.bytes|
    ensures ArrayStart(d, l) + (n + 1) * l.entrySize <= |d.bytes|
    ensures n > 0 ==> ArrayStart(d, l) + n * l.entrySize <= |d.bytes|
    ensures EntryArray(d, l, n + 1) == EntryArray(d, l, n) + Entry(d, l, n)
  {
    assert (n + 1) * l.entrySize == n * l.entrySize + l.entrySize;
  }

  /** The checksum so far is the one over the first n entries. */
  ghost predicate Rolling(d: Disk, l: Layout, n: nat, c: word) {
    && (n > 0 ==> ArrayStart(d, l) + n * l.entrySize <= |d.bytes|)
    && c == Reference(0, EntryArray(d, l, n))
  }

  lemma RollingMore(d: Disk, l: Layout, n: nat, c: word)
    requires Rolling(d, l, n, c) && ArrayStart(d, l) + n * l.entrySize + l.entrySize <= |d.bytes|
    ensures Rolling(d, l, n + 1, Reference(c, Entry(d, l, n)))
  {
    EntryFollows(d, l, n);
    Chaining(0, EntryArray(d, l, n), Entry(d, l, n));
  }

  lemma RollingStart(d: Disk, l: Layout)
    ensures Rolling(d, l, 0, 0)
  {
    NotNot(0);
  }

  /** Every entry can be read and the stored checksum is the one over the entry array. */
  ghost predicate EntriesAccepted(d: Disk, l: Layout)
    requires Regular(d, l)
  {
    ArrayReadable(d, l) && Rolling(d, l, l.count, l.checksum)
  }

  datatype Id = TypeId | UniqueId

  predicate Matches(e: seq<byte>, id: Id, guid: Guid)
    requires |e| >= MIN_ENTRY
  {
    GuidAt(e, if id == TypeId then 0 else 16) == guid
  }

  /** Entry i is on the disk and carries the identifier. */
  ghost predicate Match(d: Disk, l: Layout, i: nat, id: Id, guid: Guid) {
    && l.entrySize >= MIN_ENTRY
    && ArrayStart(d, l) + i * l.entrySize + l.entrySize <= |d.bytes|
    && Matches(Entry(d, l, i), id, guid)
  }

  datatype Search = Found(index: nat, offset: nat) | NotFound | Halted

  ghost predicate IsBoot(d: Disk, l: Layout, k: nat) {
    k < l.count && Match(d, l, k, TypeId, BOOT_GUID)
  }

  const IMAGE_SIZE: nat := 1632
  const BOOT_MAGIC := 0xB007_C0DE
  const COMPRESSED_MAGIC := 0xC08B_8355

  /** A boot image header can be read at the sector and carries one of the two magic numbers. */
  predicate HasImage(d: Disk, lba: nat) {
    d.ReadableAt(lba * d.lbaSize, IMAGE_SIZE) && LE32(d.bytes, lba * d.lbaSize) in {BOOT_MAGIC, COMPRESSED_MAGIC}
  }

  /** The listing shows a name for this boot partition. */
  ghost predicate IsShown(d: Disk, l: Layout, k: nat) {
    IsBoot(d, l, k) && HasImage(d, LE64(Entry(d, l, k), FIRST_LBA))
  }

  /** Those of the visited partitions that are shown. */
  ghost function Shown(d: Disk, l: Layout, visited: seq<nat>): seq<nat>
    decreases |visited|
  {
    if visited == [] then []
    else
      var n := |visited| - 1;
      Shown(d, l, visited[..n]) + if IsShown(d, l, visited[n]) then [visited[n]] else []
  }

  /** s holds each boot partition below n once, in increasing order, and nothing else. */
  ghost predicate Lists(d: Disk, l: Layout, s: seq<nat>, n: nat) {
    Increasing(s) && forall k: nat :: k in s <==> k < n && IsBoot(d, l, k)
  }

  /** The search ends at the least boot partition not below the given index. */
  ghost predicate Locates(d: Disk, l: Layout, from: nat, r: Search) {
    match r
    case Found(i, _) => from <= i && IsBoot(d, l, i) && forall k: nat :: from <= k < i ==> !IsBoot(d, l, k)
    case NotFound => forall k: nat :: from <= k ==> !IsBoot(d, l, k)
    case Halted => true
  }

  lemma MissMore(d: Disk, l: Layout, from: nat, i: nat, id: Id, guid: Guid)
    requires forall k: nat :: from <= k < i ==> !Match(d, l, k, id, guid)
    requires i >= from ==> !Match(d, l, i, id, guid)
    ensures forall k: nat :: from <= k < i + 1 ==> !Match(d, l, k, id, guid)
  {
  }

  lemma FirstMatchLocates(d: Disk, l: Layout, from: nat, r: Search)
    requires r.Found? ==> from <= r.index < l.count && Match(d, l, r.index, TypeId, BOOT_GUID)
    requires r.Found? ==> forall k: nat :: from <= k < r.index ==> !Match(d, l, k, TypeId, BOOT_GUID)
    requires r.NotFound? ==> forall k: nat :: from <= k < l.count ==> !Match(d, l, k, TypeId, BOOT_GUID)
    ensures Locates(d, l, from, r)
  {
  }

  // ------------------------------------------------------------- the listing's progress

  /** The partitions visited are those before the one just found, or all of them. */
  ghost predicate Listing(d: Disk, l: Layout, visited: seq<nat>, r: Search, srcIndex: nat) {
    match r
    case Found(i, _) => srcIndex == i && IsBoot(d, l, i) && Lists(d, l, visited, i)
    case NotFound => Lists(d, l, visited, l.count) && forall k: nat :: srcIndex <= k ==> !IsBoot(d, l, k)
    case Halted => false
  }

  lemma ListsMore(d: Disk, l: Layout, s: seq<nat>, i: nat)
    requires Lists(d, l, s, i) && IsBoot(d, l, i)
    ensures Lists(d, l, s + [i], i + 1)
  {
    Append(s, i);
  }

  /** What a complete listing is: all boot partitions of an accepted entry array, or none. */
  ghost predicate Listed(d: Disk, l: Layout, visited: seq<nat>, shown: seq<nat>)
    requires Regular(d, l)
  {
    shown == Shown(d, l, visited) && if EntriesAccepted(d, l) then Lists(d, l, visited, l.count) else visited == []
  }

  lemma ShownMore(d: Disk, l: Layout, visited: seq<nat>, i: nat)
    ensures Shown(d, l, visited + [i]) == Shown(d, l, visited) + if IsShown(d, l, i) then [i] else []
  {
    assert (visited + [i])[..|visited|] == visited;
  }

  lemma ListsSkip(d: Disk, l: Layout, s: seq<nat>, m: nat, n: nat)
    requires Lists(d, l, s, m) && m <= n && forall k: nat :: m <= k < n ==> !IsBoot(d, l, k)
    ensures Lists(d, l, s, n)
  {
  }

  lemma ListingStart(d: Disk, l: Layout, r: Search)
    requires Locates(d, l, 0, r) && !r.Halted?
    ensures Listing(d, l, [], r, if r.Found? then r.index else 0)
  {
    ListsSkip(d, l, [], 0, if r.Found? then r.index else l.count);
  }

  lemma ListingStep(d: Disk, l: Layout, visited: seq<nat>, r: Search, srcIndex: nat, r': Search)
    requires Listing(d, l, visited, r, srcIndex) && Locates(d, l, srcIndex + 1, r')
    ensures r'.Found? ==> r.Found? && Listing(d, l, visited + [srcIndex], r', r'.index)
    ensures r'.NotFound? ==> Listing(d, l, if r.Found? then visited + [srcIndex] else visited, r', srcIndex + 1)
  {
    if r.Found? {
      ListsMore(d, l, visited, srcIndex);
      if r'.Found? {
        ListsSkip(d, l, visited + [srcIndex], srcIndex + 1, r'.index);
      } else if r'.NotFound? {
        ListsSkip(d, l, visited + [srcIndex], srcIndex + 1, l.count);
      }
    }
  }

  // -------------------------------------------------------------- header acceptance

  /** The first n bytes of memory from the header buffer on: the buffer, the one behind it, and what
      lies beyond. */
  function FromHeader(h: seq<byte>, behind: seq<byte>, beyond: nat -> byte, n: nat): (s: seq<byte>)
    ensures |s| == n && forall k :: 0 <= k < n && k < |h| ==> s[k] == h[k]
  {
    seq(n, (k: nat) => if k < |h| then h[k] else if k < |h| + |behind| then behind[k - |h|] else beyond(k - |h| - |behind|))
  }

  /** What the header checksum is taken over: as many bytes as the header says it has. */
  function Covered(h: seq<byte>, behind: seq<byte>, beyond: nat -> byte): (s: seq<byte>)
    requires |h| >= HEADER_MIN
    ensures |s| == LE32(h, HEADER_LENGTH)
  {
    FromHeader(Zeroed(h, HEADER_CRC, 4), behind, beyond, LE32(h, HEADER_LENGTH))
  }

  ghost predicate HeaderAccepted(h: seq<byte>, behind: seq<byte>, beyond: nat -> byte)
    requires |h| >= HEADER_MIN
  {
    && h[..8] == SIGNATURE
    && LE32(h, REVISION) == EXPECTED_REVISION
    && Reference(0, Covered(h, behind, beyond)) == WordAt(h, HEADER_CRC)
    && LE64(h, CURRENT_LBA) == 1
    && LE64(h, STARTING_LBA) == 2
  }

  /** A changed byte of the header that the checksum covers. */
  ghost predicate CoveredChange(h: seq<byte>, h': seq<byte>)
    requires |h| == |h'| && |h| >= HEADER_MIN
  {
    exists k :: 0 <= k < |h| && k < LE32(h, HEADER_LENGTH) && h[k] != h'[k]
  }

  lemma CoveredBurst(h: seq<byte>, h': seq<byte>, behind: seq<byte>, beyond: nat -> byte, n: nat, i: nat, k: nat)
    requires AgreeOutside(h, h', i, 4) && k < |h| && k < n && h[k] != h'[k]
    ensures AgreeOutside(FromHeader(h, behind, beyond, n), FromHeader(h', behind, beyond, n), i, 4)
    ensures FromHeader(h, behind, beyond, n) != FromHeader(h', behind, beyond, n)
  {
    var c, c' := FromHeader(h, behind, beyond, n), FromHeader(h', behind, beyond, n);
    assert c[k] != c'[k];
  }

  lemma BurstOutsideChecksum(h: seq<byte>, h': seq<byte>, behind: seq<byte>, beyond: nat -> byte, i: nat)
    requires |h| >= HEADER_MIN && HeaderAccepted(h, behind, beyond) && AgreeOutside(h, h', i, 4)
    requires h[HEADER_LENGTH..HEADER_LENGTH + 4] == h'[HEADER_LENGTH..HEADER_LENGTH + 4]
    requires h[HEADER_CRC..HEADER_CRC + 4] == h'[HEADER_CRC..HEADER_CRC + 4] && CoveredChange(h, h')
    ensures !HeaderAccepted(h', behind, beyond)
  {
    SameField(h, h', HEADER_LENGTH);
    SameField(h, h', HEADER_CRC);
    var k :| 0 <= k < |h| && k < LE32(h, HEADER_LENGTH) && h[k] != h'[k];
    ZeroedOutside(h, h', HEADER_CRC, i, k);
    CoveredBurst(Zeroed(h, HEADER_CRC, 4), Zeroed(h', HEADER_CRC, 4), behind, beyond, LE32(h, HEADER_LENGTH), i, k);
    ByteBurstDetected(0, Covered(h, behind, beyond), Covered(h', behind, beyond), i);
  }

  /** A changed stored checksum alone. */
  lemma ChecksumChange(h: seq<byte>, h': seq<byte>, behind: seq<byte>, beyond: nat -> byte)
    requires |h| >= HEADER_MIN && HeaderAccepted(h, behind, beyond) && AgreeOutside(h, h', HEADER_CRC, 4) && h != h'
    ensures !HeaderAccepted(h', behind, beyond)
  {
    assert Zeroed(h, HEADER_CRC, 4) == Zeroed(h', HEADER_CRC, 4);
    assert h[HEADER_LENGTH..HEADER_LENGTH + 4] == h'[HEADER_LENGTH..HEADER_LENGTH + 4];
    SameField(h, h', HEADER_LENGTH);
    SameWord(h, h', HEADER_CRC);
  }

  /** Change at most four consecutive bytes of an accepted header, not its length, and either leave its
      stored checksum alone or change nothing else: if a covered byte or the checksum changed, the
      header is no longer accepted, whatever its length says. */
  lemma HeaderBurstRejected(h: seq<byte>, h': seq<byte>, behind: seq<byte>, beyond: nat -> byte, i: nat)
    requires |h| >= HEADER_MIN && HeaderAccepted(h, behind, beyond) && AgreeOutside(h, h', i, 4)
    requires h[HEADER_LENGTH..HEADER_LENGTH + 4] == h'[HEADER_LENGTH..HEADER_LENGTH + 4]
    requires h[HEADER_CRC..HEADER_CRC + 4] == h'[HEADER_CRC..HEADER_CRC + 4] || i == HEADER_CRC
    requires CoveredChange(h, h') || (i == HEADER_CRC && h != h')
    ensures !HeaderAccepted(h', behind, beyond)
  {
    if i == HEADER_CRC {
      ChecksumChange(h, h', behind, beyond);
    } else {
      BurstOutsideChecksum(h, h', behind, beyond, i);
    }
  }

  // --------------------------------------------------------------------- the reader

  class Reader {
    const d: Disk
    const header: array<byte>
    const lbaBuffer: array<byte>
    /** What lies in memory behind the two buffers. */
    const beyond: nat -> byte
    const crc: Calculator
    var headerValid: bool
    var partitionEntriesValid: bool

    ghost predicate Valid()
      reads this, crc, crc.table
    {
      && crc.Valid()
      && header.Length >= HEADER_MIN && lbaBuffer.Length >= 2 * d.lbaSize && d.lbaSize > 0
      && header != lbaBuffer && crc.table as object != header && crc.table as object != lbaBuffer
    }

    /** Buffers of one and two sectors of the largest supported size; nothing validated yet. */
    constructor (d: Disk, maxLba: nat, beyond: nat -> byte)
      requires 0 < d.lbaSize <= maxLba && maxLba >= HEADER_MIN
      ensures Valid() && this.d == d && this.beyond == beyond && !headerValid && !partitionEntriesValid
      ensures fresh(header) && fresh(lbaBuffer) && fresh(crc) && fresh(crc.table)
    {
      this.d, this.beyond := d, beyond;
      header := new byte[maxLba](_ => 0);
      lbaBuffer := new byte[2 * maxLba](_ => 0);
      crc := new Calculator();
      headerValid, partitionEntriesValid := false, false;
    }

    function L(): Layout
      requires header.Length >= HEADER_MIN
      reads header
    {
      LayoutOf(header[..])
    }

    /** Overwrites the checksum field. */
    method StoreChecksum(field: seq<byte>)
      requires |field| == 4 && header.Length >= HEADER_MIN
      modifies header
      ensures header[..] == old(header[..HEADER_CRC]) + field + old(header[HEADER_CRC + 4..])
    {
      header[HEADER_CRC], header[HEADER_CRC + 1] := field[0], field[1];
      header[HEADER_CRC + 2], header[HEADER_CRC + 3] := field[2], field[3];
    }

    /** The checksum field is zeroed for the calculation and put back. */
    method CheckHeaderCrc() returns (result: bool)
      requires Valid()
      modifies header, crc, crc.table
      ensures Valid() && header[..] == old(header[..])
      ensures result <==>
              Reference(0, Covered(header[..], lbaBuffer[..], beyond)) == WordAt(header[..], HEADER_CRC)
    {
      ghost var h := header[..];
      var original, stored := header[HEADER_CRC..HEADER_CRC + 4], WordAt(header[..], HEADER_CRC);
      var size := LE32(header[..], HEADER_LENGTH);
      StoreChecksum([0, 0, 0, 0]);
      assert header[..] == Zeroed(h, HEADER_CRC, 4);
      var input := FromHeader(header[..], lbaBuffer[..], beyond, size);
      var checksum := crc.Calculate(input);
      StoreChecksum(original);
      assert header[..] == h;
      result := checksum == stored;
    }

    method CheckHeader() returns (result: bool)
      requires Valid()
      modifies header, crc, crc.table
      ensures Valid() && header[..] == old(header[..])
      ensures result <==> HeaderAccepted(header[..], lbaBuffer[..], beyond)
    {
      result := header[..8] == SIGNATURE;
      if result {
        result := LE32(header[..], REVISION) == EXPECTED_REVISION;
      }
      if result {
        result := CheckHeaderCrc();
      }
      if result {
        result := LE64(header[..], CURRENT_LBA) == 1;
      }
      if result {
        result := LE64(header[..], STARTING_LBA) == 2;
      }
    }

    method ValidateHeader() returns (result: bool)
      requires Valid()
      modifies header, crc, crc.table, `headerValid
      ensures Valid() && header[..] == old(header[..])
      ensures result <==> HeaderAccepted(header[..], lbaBuffer[..], beyond)
      ensures headerValid == (old(headerValid) || result)
    {
      result := CheckHeader();
      ghost var h, behind := header[..], lbaBuffer[..];
      headerValid := headerValid || result;
      assert header[..] == h && lbaBuffer[..] == behind;
    }

    /** The storage driver's block read: the sector goes to the given place of the entry buffer. */
    method ReadSector(lba: nat, at: nat) returns (ok: bool)
      requires Valid() && at + d.lbaSize <= lbaBuffer.Length
      modifies lbaBuffer
      ensures ok <==> d.Readable(lba)
      ensures !ok ==> lbaBuffer[..] == old(lbaBuffer[..])
      ensures ok ==> lbaBuffer[..] == old(lbaBuffer[..at]) + d.Sector(lba) + old(lbaBuffer[at + d.lbaSize..])
    {
      ok := d.Readable(lba);
      if ok {
        var sector := d.Sector(lba);
        for k := 0 to d.lbaSize
          invariant forall j :: 0 <= j < lbaBuffer.Length ==>
            lbaBuffer[j] == if at <= j < at + k then sector[j - at] else old(lbaBuffer[j])
        {
          lbaBuffer[at + k] := sector[k];
        }
      }
    }

    /** Reads the given sector, and the next one if the offset lies beyond it. */
    method ReadPartitionEntryIntoBuffer(lbaIndex: nat, i: nat) returns (r: Option<nat>)
      requires Valid() && 0 <= OffsetOf(d, L(), i, lbaIndex)
      modifies lbaBuffer
      ensures Valid()
      ensures r.Some? <==> d.Readable(lbaIndex) && (OffsetOf(d, L(), i, lbaIndex) >= d.lbaSize ==> d.Readable(lbaIndex + 1))
      ensures r.Some? ==> r.value == OffsetOf(d, L(), i, lbaIndex)
      ensures r.Some? && r.value < d.lbaSize ==> lbaBuffer[..] == Loaded(old(lbaBuffer[..]), d.Sector(lbaIndex))
      ensures r.Some? && r.value >= d.lbaSize ==>
                lbaBuffer[..] == Loaded(old(lbaBuffer[..]), d.Sector(lbaIndex) + d.Sector(lbaIndex + 1))
    {
      var l := L();
      var offset := l.entrySize * i - (lbaIndex - l.start) * d.lbaSize;
      var retVal := ReadSector(lbaIndex, 0);
      if retVal && offset >= d.lbaSize {
        retVal := ReadSector(lbaIndex + 1, d.lbaSize);
      }
      r := if retVal then Some(offset) else None;
    }

    /** GPT_ReadPartitionEntryByIndex: the entry's sector is computed, so its bytes are found in
        the buffer at the returned offset. */
    method ReadPartitionEntryByIndex(i: nat) returns (r: Option<nat>)
      requires Valid() && Regular(d, L())
      modifies lbaBuffer
      ensures Valid()
      ensures r.Some? <==> d.Readable(LbaOf(d, L(), i))
      ensures r.Some? ==> r.value == (i * L().entrySize) % d.lbaSize && r.value + L().entrySize <= d.lbaSize
      ensures r.Some? ==> ArrayStart(d, L()) + i * L().entrySize + L().entrySize <= |d.bytes|
      ensures r.Some? ==> lbaBuffer[r.value..r.value + L().entrySize] == Entry(d, L(), i)
    {
      var l := L();
      var lba := l.start + (i * l.entrySize) / d.lbaSize;
      assert lba == LbaOf(d, l, i);
      OffsetIsRemainder(d, l, i);
      ghost var before := lbaBuffer[..];
      r := ReadPartitionEntryIntoBuffer(lba, i);
      if d.Readable(lba) {
        RegularFetch(d, l, i, before, Loaded(before, d.Sector(lba)), OffsetOf(d, l, i, lba));
      }
    }

    /** Fetches entry i and continues the checksum over it. */
    method RollEntry(i: nat, c: word) returns (ok: bool, c': word)
      requires Valid() && Regular(d, L()) && Rolling(d, L(), i, c)
      modifies lbaBuffer, crc, crc.table
      ensures Valid()
      ensures ok <==> d.Readable(LbaOf(d, L(), i))
      ensures ok ==> Rolling(d, L(), i + 1, c')
    {
      c' := c;
      var entry := ReadPartitionEntryByIndex(i);
      ok := entry.Some?;
      if ok {
        RollingMore(d, L(), i, c);
        c' := crc.CalculateEx(c, lbaBuffer[entry.value..entry.value + L().entrySize]);
      }
    }

    /** One entry at a time, yet the result is the checksum of the whole array (section 5.3.3 of
        the UEFI Specification). */
    method ValidatePartitionEntries() returns (result: bool)
      requires Valid() && Regular(d, L())
      modifies lbaBuffer, crc, crc.table, `partitionEntriesValid
      ensures Valid()
      ensures result <==> EntriesAccepted(d, L())
      ensures partitionEntriesValid == (old(partitionEntriesValid) || result)
    {
      var l := L();
      var rollingCrc: word := 0;
      result := true;
      var i := 0;
      RollingStart(d, l);
      while i < l.count
        invariant 0 <= i <= l.count && Valid() && result && l == L()
        invariant partitionEntriesValid == old(partitionEntriesValid)
        invariant forall k: nat :: k < i ==> d.Readable(LbaOf(d, l, k))
        invariant Rolling(d, l, i, rollingCrc)
      {
        result, rollingCrc := RollEntry(i, rollingCrc);
        if !result {
          break;
        }
        i := i + 1;
      }
      if result {
        result := rollingCrc == l.checksum;
        if result {
          partitionEntriesValid := true;
        }
      }
    }

    /** Fetches entry i and tests its identifier. */
    method TestEntry(i: nat, id: Id, guid: Guid) returns (r: Option<nat>, matched: bool)
      requires Valid() && Regular(d, L())
      modifies lbaBuffer
      ensures Valid()
      ensures r.Some? <==> d.Readable(LbaOf(d, L(), i))
      ensures r.Some? ==> (matched <==> Match(d, L(), i, id, guid))
      ensures r.Some? ==> HoldsEntry(r.value, i)
    {
      r := ReadPartitionEntryByIndex(i);
      matched := r.Some? && Matches(lbaBuffer[r.value..r.value + L().entrySize], id, guid);
    }

    /** Entry i is in the first sector of the buffer, at the given offset. */
    ghost predicate HoldsEntry(offset: nat, i: nat)
      requires header.Length >= HEADER_MIN
      reads header, lbaBuffer
    {
      && offset + L().entrySize <= d.lbaSize <= lbaBuffer.Length
      && ArrayStart(d, L()) + i * L().entrySize + L().entrySize <= |d.bytes|
      && lbaBuffer[offset..offset + L().entrySize] == Entry(d, L(), i)
    }

    /** First match at or after the starting index.  Every entry from 0 on is fetched; a failed
        fetch stops the program. */
    method FindPartitionById(start: nat, id: Id, guid: Guid) returns (r: Search)
      requires Valid() && Regular(d, L())
      modifies lbaBuffer
      ensures Valid()
      ensures r.Found? ==> start <= r.index < L().count && Match(d, L(), r.index, id, guid) && HoldsEntry(r.offset, r.index)
      ensures r.Found? ==> forall k: nat :: start <= k < r.index ==> !Match(d, L(), k, id, guid)
      ensures r.NotFound? ==> forall k: nat :: start <= k < L().count ==> !Match(d, L(), k, id, guid)
      ensures r.Halted? ==> !ArrayReadable(d, L())
    {
      ghost var l := L();
      var n := L().count;
      var i := 0;
      while i < n
        invariant 0 <= i <= n && Valid() && l == L()
        invariant forall k: nat :: start <= k < i ==> !Match(d, l, k, id, guid)
      {
        var entry, matched := TestEntry(i, id, guid);
        if entry.None? {
          return Halted;
        }
        if i >= start && matched {
          return Found(i, entry.value);
        }
        MissMore(d, l, start, i, id, guid);
        i := i + 1;
      }
      r := NotFound;
    }

    /** The header check is repeated if needed but its outcome is not used; the entry checksum is
        decisive. */
    method EnsureEntriesValid() returns (result: bool)
      requires Valid() && Regular(d, L())
      modifies this, header, lbaBuffer, crc, crc.table
      ensures Valid() && header[..] == old(header[..])
      ensures result == partitionEntriesValid == (old(partitionEntriesValid) || EntriesAccepted(d, L()))
    {
      if !headerValid {
        var ignored := ValidateHeader();
      }
      result := partitionEntriesValid;
      if !result {
        result := ValidatePartitionEntries();
      }
    }

    /** On failure the index is left alone. */
    method FindBootSectorIndex(srcIndex: nat) returns (r: Search, index: nat)
      requires Valid() && Regular(d, L())
      modifies this, header, lbaBuffer, crc, crc.table
      ensures Valid() && header[..] == old(header[..]) && L() == old(L())
      ensures partitionEntriesValid == (old(partitionEntriesValid) || EntriesAccepted(d, L()))
      ensures if partitionEntriesValid then Locates(d, L(), srcIndex, r) else r.NotFound?
      ensures r.Found? ==> index == r.index && HoldsEntry(r.offset, index)
      ensures !r.Found? ==> index == srcIndex
      ensures r.Halted? ==> !ArrayReadable(d, L())
    {
      index := srcIndex;
      var result := EnsureEntriesValid();
      if result {
        r := FindPartitionById(srcIndex, TypeId, BOOT_GUID);
        FirstMatchLocates(d, L(), srcIndex, r);
        if r.Found? {
          index := r.index;
        }
      } else {
        r := NotFound;
      }
    }

    method LoadHeader(sector: seq<byte>)
      requires Valid() && |sector| <= header.Length
      modifies header
      ensures Valid() && header[..] == Loaded(old(header[..]), sector)
    {
      for k := 0 to |sector|
        invariant forall j :: 0 <= j < header.Length ==> header[j] == if j < k then sector[j] else old(header[j])
      {
        header[k] := sector[k];
      }
    }

    /** Reads sector 1 over the start of the header buffer and checks it. */
    method ReadHeader() returns (result: bool)
      requires Valid() && d.lbaSize <= header.Length
      modifies header, crc, crc.table, `headerValid
      ensures Valid()
      ensures header[..] == if d.Readable(1) then Loaded(old(header[..]), d.Sector(1)) else old(header[..])
      ensures result <==> d.Readable(1) && HeaderAccepted(header[..], lbaBuffer[..], beyond)
    {
      result := d.Readable(1);
      if result {
        LoadHeader(d.Sector(1));
        result := ValidateHeader();
      }
    }

    /** The first LBA field of entry i; an unreadable entry stops the program. */
    method PartitionIdToLbaOffset(i: nat) returns (r: Option<int>, halted: bool)
      requires Valid() && Regular(d, L())
      modifies lbaBuffer
      ensures Valid()
      ensures halted <==> i < L().count && !d.Readable(LbaOf(d, L(), i))
      ensures !halted ==> (r.Some? <==> i < L().count)
      ensures !halted && r.Some? ==>
                ArrayStart(d, L()) + i * L().entrySize + L().entrySize <= |d.bytes| && r.value == LE64(Entry(d, L(), i), FIRST_LBA)
    {
      var entry := ReadPartitionEntryByIndex(i);
      halted, r := false, None;
      if i < L().count {
        if entry.None? {
          halted := true;
        } else {
          r := Some(LE64(lbaBuffer[entry.value..entry.value + L().entrySize], FIRST_LBA));
        }
      }
    }

    /** Shows the partition found, which takes another read of its entry and one of its image header. */
    method Visit(visited: seq<nat>, shown: seq<nat>, r: Search, srcIndex: nat)
      returns (visited': seq<nat>, shown': seq<nat>, halted: bool)
      requires Valid() && Regular(d, L()) && (r.Found? ==> IsBoot(d, L(), srcIndex))
      modifies lbaBuffer
      ensures Valid() && header[..] == old(header[..]) && L() == old(L())
      ensures visited' == if r.Found? && !halted then visited + [srcIndex] else visited
      ensures shown' == if r.Found? && !halted && IsShown(d, L(), srcIndex) then shown + [srcIndex] else shown
      ensures halted ==> !ArrayReadable(d, L())
    {
      visited', shown', halted := visited, shown, false;
      if r.Found? {
        var first;
        first, halted := PartitionIdToLbaOffset(srcIndex);
        if !halted {
          visited' := visited + [srcIndex];
          if HasImage(d, first.value) {
            shown' := shown + [srcIndex];
          }
        }
      }
    }

    /** One pass of the listing loop: visit the partition found, then search on from the next. */
    method VisitAndSearch(visited: seq<nat>, shown: seq<nat>, r: Search, srcIndex: nat, ghost l: Layout)
      returns (visited': seq<nat>, shown': seq<nat>, r': Search, srcIndex': nat)
      requires Valid() && l == L() && Regular(d, l)
      requires partitionEntriesValid && Listing(d, l, visited, r, srcIndex) && shown == Shown(d, l, visited)
      modifies this, header, lbaBuffer, crc, crc.table
      ensures Valid() && header[..] == old(header[..]) && l == L() && partitionEntriesValid
      ensures r'.Halted? ==> !ArrayReadable(d, l)
      ensures !r'.Halted? ==> Listing(d, l, visited', r', srcIndex') && shown' == Shown(d, l, visited')
      ensures r'.Found? ==> r.Found? && srcIndex < srcIndex'
    {
      var stop;
      visited', shown', stop := Visit(visited, shown, r, srcIndex);
      ShownMore(d, l, visited, srcIndex);
      r', srcIndex' := Halted, srcIndex;
      if !stop {
        r', srcIndex' := FindBootSectorIndex(srcIndex + 1);
        ListingStep(d, l, visited, r, srcIndex, r');
      }
    }

    /** The listing loop of the command line: search from 0, then again and again from one past
        the last hit.  The body runs once even if the first search fails. */
    method BootList() returns (visited: seq<nat>, shown: seq<nat>, halted: bool)
      requires Valid() && Regular(d, L())
      modifies this, header, lbaBuffer, crc, crc.table
      ensures Valid() && header[..] == old(header[..]) && L() == old(L())
      ensures !halted ==> shown == Shown(d, L(), visited) && if partitionEntriesValid then Lists(d, L(), visited, L().count) else visited == []
      ensures partitionEntriesValid == (old(partitionEntriesValid) || EntriesAccepted(d, L()))
      ensures halted ==> partitionEntriesValid && !ArrayReadable(d, L())
    {
      visited, shown, halted := [], [], false;
      ghost var l := L();
      var r, srcIndex := FindBootSectorIndex(0);
      if !partitionEntriesValid {
        r, srcIndex := FindBootSectorIndex(srcIndex + 1);
        return;
      }
      if !r.Halted? {
        ListingStart(d, l, r);
      }
      var again := !r.Halted?;
      while again
        invariant Valid() && header[..] == old(header[..]) && l == L() && partitionEntriesValid
        invariant !r.Halted? ==> Listing(d, l, visited, r, srcIndex) && shown == Shown(d, l, visited)
        invariant again ==> !r.Halted?
        invariant !again ==> !r.Found?
        invariant r.Halted? ==> !ArrayReadable(d, l)
        decreases if !again then 0 else if r.Found? then 2 + l.count - srcIndex else 1
      {
        visited, shown, r, srcIndex := VisitAndSearch(visited, shown, r, srcIndex, l);
        again := r.Found?;
      }
      halted := r.Halted?;
    }

    /** On a fresh reader the loop does not stop half-way: entries are searched only if all of them have
        been read for the checksum. */
    method FreshList(ghost l: Layout) returns (visited: seq<nat>, shown: seq<nat>)
      requires Valid() && l == L() && Regular(d, l) && !partitionEntriesValid
      modifies this, header, lbaBuffer, crc, crc.table
      ensures Valid() && Listed(d, l, visited, shown)
    {
      var halted;
      visited, shown, halted := BootList();
    }

    /** The header buffer once sector 1 has been read over its start. */
    ghost function HeaderRead(): (h: seq<byte>)
      requires header.Length >= HEADER_MIN && 0 < d.lbaSize <= header.Length
      reads header
      ensures |h| >= HEADER_MIN
    {
      if d.Readable(1) then Loaded(header[..], d.Sector(1)) else header[..]
    }

    /** GPT_Init: nothing is valid yet. */
    method Init()
      requires Valid()
      modifies this
      ensures Valid() && !headerValid && !partitionEntriesValid
    {
      headerValid, partitionEntriesValid := false, false;
    }

    /** A fresh start: h is the header that will be read, behind the memory behind its buffer. */
    method InitAndRead(ghost h: seq<byte>, ghost behind: seq<byte>) returns (result: bool)
      requires Valid() && d.lbaSize <= header.Length && h == HeaderRead() && behind == lbaBuffer[..]
      modifies this, header, crc, crc.table
      ensures Valid() && header[..] == h && !partitionEntriesValid
      ensures result <==> d.Readable(1) && HeaderAccepted(h, behind, beyond)
    {
      Init();
      result := ReadHeader();
      assert header[..] == h && lbaBuffer[..] == behind;
    }

    /** The whole command: the listing loop runs only behind a successful header check. */
    method ListBootPartitions(ghost h: seq<byte>, ghost behind: seq<byte>) returns (visited: seq<nat>, shown: seq<nat>)
      requires Valid() && d.lbaSize <= header.Length && h == HeaderRead() && behind == lbaBuffer[..]
      requires d.Readable(1) && HeaderAccepted(h, behind, beyond) ==> Regular(d, LayoutOf(h))
      modifies this, header, lbaBuffer, crc, crc.table
      ensures Valid()
      ensures if d.Readable(1) && HeaderAccepted(h, behind, beyond)
              then Listed(d, LayoutOf(h), visited, shown)
              else visited == [] && shown == []
    {
      visited, shown := [], [];
      var result := InitAndRead(h, behind);
      if result {
        visited, shown := FreshList(LayoutOf(h));
      }
    }
  }
}
