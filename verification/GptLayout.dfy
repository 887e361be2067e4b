/** The records of the partition table written field by field, and what the reader makes of them. */
module GptLayout {
  import opened Options
  import opened Crc32
  import opened Bytes
  import opened Gpt
  import opened Sequences

  predicate IsGuid(g: Guid) {
    && 0 <= g.data1 < 0x1_0000_0000 && 0 <= g.data2 < 0x1_0000 && 0 <= g.data3 < 0x1_0000
    && 0 <= g.data4 < 0x1_0000_0000_0000_0000
  }

  ghost function EncodeGuid(g: Guid): (s: seq<byte>)
    requires IsGuid(g)
    ensures |s| == 16
  {
    Put32(g.data1) + Put16(g.data2) + Put16(g.data3) + Put64(g.data4)
  }

  lemma GuidParts(g: Guid)
    requires IsGuid(g)
    ensures var t := EncodeGuid(g);
            t[0..4] == Put32(g.data1) && t[4..6] == Put16(g.data2) && t[6..8] == Put16(g.data3) && t[8..16] == Put64(g.data4)
  {
    var t, a, b, c, d := EncodeGuid(g), Put32(g.data1), Put16(g.data2), Put16(g.data3), Put64(g.data4);
    Middle(t, [], a, b + c + d);
    Middle(t, a, b, c + d);
    Middle(t, a + b, c, d);
    Middle(t, a + b + c, d, []);
  }

  lemma GuidReadBack(s: seq<byte>, at: nat, g: Guid)
    requires IsGuid(g) && at + 16 <= |s| && s[at..at + 16] == EncodeGuid(g)
    ensures GuidAt(s, at) == g
  {
    GuidParts(g);
    Within(s, at, 16, 0, 4);
    Within(s, at, 16, 4, 6);
    Within(s, at, 16, 6, 8);
    Within(s, at, 16, 8, 16);
    Get32(s, at, g.data1);
    Get16(s, at + 4, g.data2);
    Get16(s, at + 6, g.data3);
    Get64(s, at + 8, g.data4);
  }

  lemma PartsSpell(g: Guid, a: seq<byte>, b: seq<byte>, c: seq<byte>, d: seq<byte>)
    requires |a| == 4 && |b| == 2 && |c| == 2 && |d| == 8
    requires LE32(a, 0) == g.data1 && LE16(b, 0) == g.data2 && LE16(c, 0) == g.data3 && LE64(d, 0) == g.data4
    ensures IsGuid(g) && Put32(g.data1) == a && Put16(g.data2) == b && Put16(g.data3) == c && Put64(g.data4) == d
  {
    Spell32(a, g.data1);
    Spell16(b, g.data2);
    Spell16(c, g.data3);
    Spell64(d, g.data4);
  }

  lemma GuidSpells(g: Guid, a: seq<byte>, b: seq<byte>, c: seq<byte>, d: seq<byte>)
    requires |a| == 4 && |b| == 2 && |c| == 2 && |d| == 8
    requires LE32(a, 0) == g.data1 && LE16(b, 0) == g.data2 && LE16(c, 0) == g.data3 && LE64(d, 0) == g.data4
    ensures IsGuid(g) && EncodeGuid(g) == a + b + c + d
  {
    PartsSpell(g, a, b, c, d);
  }

  /** The type of a boot partition spells "Hah!IdontNeedEFI". */
  lemma BootGuidSpells()
    ensures IsGuid(BOOT_GUID)
    ensures EncodeGuid(BOOT_GUID) ==
            [0x48, 0x61, 0x68, 0x21] + [0x49, 0x64] + [0x6F, 0x6E] + [0x74, 0x4E, 0x65, 0x65, 0x64, 0x45, 0x46, 0x49]
  {
    var a: seq<byte>, b: seq<byte> := [0x48, 0x61, 0x68, 0x21], [0x49, 0x64];
    var c: seq<byte>, d: seq<byte> := [0x6F, 0x6E], [0x74, 0x4E, 0x65, 0x65, 0x64, 0x45, 0x46, 0x49];
    BootGuidParts(a, 0x49, 0x64, 0x6F, 0x6E, d);
    GuidSpells(BOOT_GUID, a, b, c, d);
  }

  lemma BootGuidParts(a: seq<byte>, b0: byte, b1: byte, c0: byte, c1: byte, d: seq<byte>)
    requires a == [0x48, 0x61, 0x68, 0x21] && d == [0x74, 0x4E, 0x65, 0x65, 0x64, 0x45, 0x46, 0x49]
    requires b0 == 0x49 && b1 == 0x64 && c0 == 0x6F && c1 == 0x6E
    ensures LE32(a, 0) == BOOT_GUID.data1 && LE64(d, 0) == BOOT_GUID.data4
    ensures Index(b0) + 0x100 * Index(b1) == BOOT_GUID.data2 && Index(c0) + 0x100 * Index(c1) == BOOT_GUID.data3
  {
    FourParts(a, 0, a[0..4]);
    FourParts(d, 0, d[0..4]);
    FourParts(d, 4, d[4..8]);
  }

  // ------------------------------------------------------------------------ entries

  datatype Fields = Fields(typeId: Guid, uniqueId: Guid, first: nat, last: nat, attributes: nat, name: seq<byte>) {
    predicate Valid() {
      && IsGuid(typeId) && IsGuid(uniqueId) && |name| == 72
      && first < 0x1_0000_0000_0000_0000 && last < 0x1_0000_0000_0000_0000 && attributes < 0x1_0000_0000_0000_0000
    }
  }

  ghost function EncodeEntry(f: Fields): (s: seq<byte>)
    requires f.Valid()
    ensures |s| == 128
  {
    EncodeGuid(f.typeId) + EncodeGuid(f.uniqueId) + Put64(f.first) + Put64(f.last) + Put64(f.attributes) + f.name
  }

  lemma FirstParts(a: seq<byte>, b: seq<byte>, c: seq<byte>, x: seq<byte>, y: seq<byte>, n: seq<byte>, z: seq<byte>, e: seq<byte>)
    requires e == a + b + c + x + y + n + z
    ensures e[..|a|] == a && e[|a|..|a| + |b|] == b && e[|a| + |b|..|a| + |b| + |c|] == c
  {
    var rest := x + y + n + z;
    assert e == a + b + c + rest;
    Middle(e, a, b, c + rest);
    Middle(e, a + b, c, rest);
  }

  lemma EntryParts(f: Fields, space: seq<byte>, e: seq<byte>)
    requires f.Valid() && e == EncodeEntry(f) + space
    ensures |e| >= 128 && e[0..16] == EncodeGuid(f.typeId) && e[16..32] == EncodeGuid(f.uniqueId) && e[32..40] == Put64(f.first)
  {
    FirstParts(EncodeGuid(f.typeId), EncodeGuid(f.uniqueId), Put64(f.first), Put64(f.last), Put64(f.attributes), f.name, space, e);
  }

  /** From an entry, however much space follows it, the reader takes the first LBA and the two
      identifiers that were written. */
  lemma EntryReadBack(f: Fields, space: seq<byte>, guid: Guid)
    requires f.Valid()
    ensures var e := EncodeEntry(f) + space;
            && LE64(e, FIRST_LBA) == f.first
            && (Matches(e, TypeId, guid) <==> guid == f.typeId)
            && (Matches(e, UniqueId, guid) <==> guid == f.uniqueId)
  {
    var e := EncodeEntry(f) + space;
    EntryParts(f, space, e);
    GuidReadBack(e, 0, f.typeId);
    GuidReadBack(e, 16, f.uniqueId);
    Get64(e, 32, f.first);
  }

  /** What the reader returns for an entry of the table on the disk. */
  method FirstLbaOf(r: Reader, i: nat, f: Fields, space: seq<byte>) returns (first: Option<int>, halted: bool)
    requires r.Valid() && Regular(r.d, r.L()) && f.Valid() && i < r.L().count
    requires ArrayStart(r.d, r.L()) + i * r.L().entrySize + r.L().entrySize <= |r.d.bytes|
    requires Entry(r.d, r.L(), i) == EncodeEntry(f) + space
    modifies r.lbaBuffer
    ensures if r.d.Readable(LbaOf(r.d, r.L(), i)) then !halted && first == Some(f.first) else halted
  {
    EntryReadBack(f, space, f.typeId);
    first, halted := r.PartitionIdToLbaOffset(i);
  }

  // ------------------------------------------------------------------------- header

  datatype HeaderFields = HeaderFields(
    signature: seq<byte>, revision: nat, size: nat, reserved: nat, current: nat, backup: nat,
    firstUsable: nat, lastUsable: nat, disk: Guid, start: nat, count: nat, entrySize: nat, entries: word)
  {
    predicate Valid() {
      && |signature| == 8 && revision < 0x1_0000_0000 && size < 0x1_0000_0000 && reserved < 0x1_0000_0000
      && current < 0x1_0000_0000_0000_0000 && backup < 0x1_0000_0000_0000_0000
      && firstUsable < 0x1_0000_0000_0000_0000 && lastUsable < 0x1_0000_0000_0000_0000 && IsGuid(disk)
      && start < 0x1_0000_0000_0000_0000 && count < 0x1_0000_0000 && entrySize < 0x1_0000_0000
    }
  }

  /** The header with the four given bytes as its checksum. */
  ghost function EncodeHeader(f: HeaderFields, checksum: seq<byte>): (s: seq<byte>)
    requires f.Valid() && |checksum| == 4
    ensures |s| == 92
  {
    Front(f) + checksum + Put32(f.reserved) + Sectors(f) + Put64(f.start) + Put32(f.count) + Put32(f.entrySize) + WordBytes(f.entries)
  }

  ghost function Front(f: HeaderFields): (s: seq<byte>)
    requires f.Valid()
    ensures |s| == 16
  {
    f.signature + Put32(f.revision) + Put32(f.size)
  }

  ghost function Sectors(f: HeaderFields): (s: seq<byte>)
    requires f.Valid()
    ensures |s| == 48
  {
    Put64(f.current) + Put64(f.backup) + Put64(f.firstUsable) + Put64(f.lastUsable) + EncodeGuid(f.disk)
  }

  lemma ThreeParts(a: seq<byte>, b: seq<byte>, c: seq<byte>, s: seq<byte>)
    requires s == a + b + c
    ensures s[..|a|] == a && s[|a|..|a| + |b|] == b && s[|a| + |b|..] == c
  {
  }

  lemma FirstOfFive(a: seq<byte>, b: seq<byte>, c: seq<byte>, d: seq<byte>, e: seq<byte>, s: seq<byte>)
    requires s == a + b + c + d + e
    ensures s[..|a|] == a
  {
  }

  lemma FrontParts(f: HeaderFields)
    requires f.Valid()
    ensures Front(f)[0..8] == f.signature && Front(f)[8..12] == Put32(f.revision) && Front(f)[12..16] == Put32(f.size)
    ensures Sectors(f)[0..8] == Put64(f.current)
  {
    ThreeParts(f.signature, Put32(f.revision), Put32(f.size), Front(f));
    FirstOfFive(Put64(f.current), Put64(f.backup), Put64(f.firstUsable), Put64(f.lastUsable), EncodeGuid(f.disk), Sectors(f));
  }

  lemma Slices(a: seq<byte>, b: seq<byte>, c: seq<byte>, d: seq<byte>,
               x: seq<byte>, y: seq<byte>, z: seq<byte>, w: seq<byte>, space: seq<byte>, h: seq<byte>)
    requires |a| == 16 && |b| == 4 && |c| == 4 && |d| == 48 && |x| == 8 && |y| == 4 && |z| == 4 && |w| == 4
    requires h == a + b + c + d + x + y + z + w + space
    ensures h[0..16] == a && h[16..20] == b && h[24..72] == d && h[72..80] == x && h[80..84] == y && h[84..88] == z && h[88..92] == w
  {
  }

  lemma HeaderParts(f: HeaderFields, checksum: seq<byte>, space: seq<byte>, h: seq<byte>)
    requires f.Valid() && |checksum| == 4 && h == EncodeHeader(f, checksum) + space
    ensures h[0..16] == Front(f) && h[16..20] == checksum && h[24..72] == Sectors(f)
    ensures h[72..80] == Put64(f.start) && h[80..84] == Put32(f.count)
    ensures h[84..88] == Put32(f.entrySize) && h[88..92] == WordBytes(f.entries)
  {
    Slices(Front(f), checksum, Put32(f.reserved), Sectors(f),
           Put64(f.start), Put32(f.count), Put32(f.entrySize), WordBytes(f.entries), space, h);
  }

  /** The reader locates the entry array where the header says. */
  lemma LayoutReadBack(f: HeaderFields, checksum: seq<byte>, space: seq<byte>)
    requires f.Valid() && |checksum| == 4
    ensures LayoutOf(EncodeHeader(f, checksum) + space) == Layout(f.start, f.count, f.entrySize, f.entries)
  {
    var h := EncodeHeader(f, checksum) + space;
    HeaderParts(f, checksum, space, h);
    Get64(h, 72, f.start);
    Get32(h, 80, f.count);
    Get32(h, 84, f.entrySize);
    GetWord(h, 88, f.entries);
  }

  lemma FrontReadBack(f: HeaderFields, checksum: seq<byte>, space: seq<byte>, h: seq<byte>)
    requires f.Valid() && |checksum| == 4 && h == EncodeHeader(f, checksum) + space
    ensures h[..8] == f.signature && LE32(h, REVISION) == f.revision && LE32(h, HEADER_LENGTH) == f.size
    ensures LE64(h, CURRENT_LBA) == f.current && LE64(h, STARTING_LBA) == f.start
  {
    HeaderParts(f, checksum, space, h);
    FrontParts(f);
    Within(h, 0, 16, 0, 8);
    Within(h, 0, 16, 8, 12);
    Within(h, 0, 16, 12, 16);
    Within(h, 24, 48, 0, 8);
    Get32(h, 8, f.revision);
    Get32(h, 12, f.size);
    Get64(h, 24, f.current);
    Get64(h, 72, f.start);
  }

  lemma BlankMiddle(a: seq<byte>, b: seq<byte>, c: seq<byte>)
    requires |a| == 16 && |b| == 4
    ensures Zeroed(a + b + c, 16, 4) == a + [0, 0, 0, 0] + c
  {
  }

  lemma Regroup(a: seq<byte>, b: seq<byte>, c: seq<byte>, d: seq<byte>,
                x: seq<byte>, y: seq<byte>, z: seq<byte>, w: seq<byte>, space: seq<byte>)
    ensures a + b + c + d + x + y + z + w + space == a + b + (c + d + x + y + z + w + space)
  {
  }

  lemma BlankChecksum(f: HeaderFields, checksum: seq<byte>, space: seq<byte>)
    requires f.Valid() && |checksum| == 4
    ensures Zeroed(EncodeHeader(f, checksum) + space, HEADER_CRC, 4) == EncodeHeader(f, [0, 0, 0, 0]) + space
  {
    var a, c, d := Front(f), Put32(f.reserved), Sectors(f);
    var x, y, z, w := Put64(f.start), Put32(f.count), Put32(f.entrySize), WordBytes(f.entries);
    Regroup(a, checksum, c, d, x, y, z, w, space);
    Regroup(a, [0, 0, 0, 0], c, d, x, y, z, w, space);
    BlankMiddle(a, checksum, c + d + x + y + z + w + space);
  }

  /** A header is accepted exactly if it begins "EFI PART", is of revision 1.0, says that it is in
      sector 1 and its entries in sector 2, and its checksum is the one over as many bytes as it says
      it has, with the checksum blank. */
  lemma HeaderAcceptedIff(f: HeaderFields, checksum: word, space: seq<byte>, behind: seq<byte>, beyond: nat -> byte)
    requires f.Valid()
    ensures HeaderAccepted(EncodeHeader(f, WordBytes(checksum)) + space, behind, beyond) <==>
            && f.signature == [0x45, 0x46, 0x49, 0x20, 0x50, 0x41, 0x52, 0x54] && f.revision == 0x0001_0000
            && f.current == 1 && f.start == 2
            && checksum == Reference(0, FromHeader(EncodeHeader(f, [0, 0, 0, 0]) + space, behind, beyond, f.size))
  {
    var stored := WordBytes(checksum);
    var h := EncodeHeader(f, stored) + space;
    AcceptedFields(f, checksum, stored, space, h);
    BlankChecksum(f, stored, space);
    assert Covered(h, behind, beyond) == FromHeader(EncodeHeader(f, [0, 0, 0, 0]) + space, behind, beyond, f.size);
  }

  lemma AcceptedFields(f: HeaderFields, checksum: word, stored: seq<byte>, space: seq<byte>, h: seq<byte>)
    requires f.Valid() && stored == WordBytes(checksum) && h == EncodeHeader(f, stored) + space
    ensures h[..8] == f.signature && LE32(h, REVISION) == f.revision && LE32(h, HEADER_LENGTH) == f.size
    ensures LE64(h, CURRENT_LBA) == f.current && LE64(h, STARTING_LBA) == f.start && WordAt(h, HEADER_CRC) == checksum
  {
    HeaderParts(f, stored, space, h);
    FrontReadBack(f, stored, space, h);
    GetWord(h, 16, checksum);
  }

  /** In particular a header no longer than its buffer. */
  lemma CoveredFits(h: seq<byte>, behind: seq<byte>, beyond: nat -> byte, n: nat)
    requires n <= |h|
    ensures FromHeader(h, behind, beyond, n) == h[..n]
  {
  }

  // ------------------------------------------------------------------- image header

  /** What the listing looks for: an image header that can be read and begins with either magic. */
  lemma HasImageIff(d: Disk, lba: nat)
    ensures HasImage(d, lba) <==>
            && d.ReadableAt(lba * d.lbaSize, 1632)
            && d.bytes[lba * d.lbaSize..lba * d.lbaSize + 4] in {[0xDE, 0xC0, 0x07, 0xB0], [0x55, 0x83, 0x8B, 0xC0]}
  {
    var at := lba * d.lbaSize;
    if d.ReadableAt(at, 1632) {
      MagicIs(d.bytes, at, [0xDE, 0xC0, 0x07, 0xB0]);
      MagicIs(d.bytes, at, [0x55, 0x83, 0x8B, 0xC0]);
    }
  }

  lemma MagicIs(s: seq<byte>, at: nat, t: seq<byte>)
    requires at + 4 <= |s| && |t| == 4
    ensures LE32(s, at) == Index(t[0]) + 0x100 * Index(t[1]) + 0x1_0000 * Index(t[2]) + 0x100_0000 * Index(t[3])
            <==> s[at..at + 4] == t
  {
    var f := s[at..at + 4];
    FourParts(s, at, f);
    FourParts(f, 0, f);
    FourParts(t, 0, t);
    FourBytesOf(f, t);
  }
}
