/** The boot image header and its checksum. */
module ImageHeader {
  import opened Options
  import opened Crc32
  import opened Bytes

  // Layout of struct HSS_BootImage on RV64.
  const VERSION: nat := 4
  const HEADER_CRC: nat := 16
  const SIGNATURE: nat := 1488
  const HEADER_SIZE: nat := 1632
  const LEGACY_SIZE: nat := 1552
  const SIGNATURE_SIZE: nat := 144
  const BOOT_MAGIC := 0xB007_C0DE

  type Header = h: seq<byte> | |h| == HEADER_SIZE witness seq(HEADER_SIZE, _ => 0)

  function Shadow(h: Header): (s: seq<byte>)
    ensures |s| == HEADER_SIZE
  {
    Zeroed(Zeroed(h, HEADER_CRC, 4), SIGNATURE, SIGNATURE_SIZE)
  }

  /** A header of version 0 is checked over the size of the older structure. */
  function Covered(h: Header): seq<byte> {
    Shadow(h)[..if LE32(h, VERSION) == 0 then LEGACY_SIZE else HEADER_SIZE]
  }

  ghost predicate Accepted(h: Header) {
    Reference(0, Covered(h)) == WordAt(h, HEADER_CRC)
  }

  method ValidateCrc(crc: Calculator, h: Header) returns (ok: bool)
    requires crc.Valid()
    modifies crc, crc.table
    ensures crc.Valid()
    ensures ok <==> Accepted(h)
  {
    var shadow := Zeroed(h, HEADER_CRC, 4);
    shadow := Zeroed(shadow, SIGNATURE, SIGNATURE_SIZE);
    var crcLen := if LE32(h, VERSION) == 0 then LEGACY_SIZE else HEADER_SIZE;
    var headerCrc := crc.Calculate(shadow[..crcLen]);
    ok := headerCrc == WordAt(h, HEADER_CRC);
  }

  method ValidateImage(crc: Calculator, image: Option<Header>) returns (ok: bool)
    requires crc.Valid()
    modifies crc, crc.table
    ensures crc.Valid()
    ensures ok <==> image.Some? && LE32(image.value, 0) == BOOT_MAGIC && Accepted(image.value)
  {
    match image
    case None => ok := false;
    case Some(h) =>
      if LE32(h, 0) != BOOT_MAGIC {
        ok := false;
      } else {
        ok := ValidateCrc(crc, h);
      }
  }

  /** Change at most four consecutive bytes of an accepted header and leave its version and its
      stored checksum alone: the result is accepted exactly when only signature bytes changed. */
  lemma BurstRejected(h: Header, h': Header, i: nat)
    requires Accepted(h) && AgreeOutside(h, h', i, 4)
    requires h[VERSION..VERSION + 4] == h'[VERSION..VERSION + 4]
    requires h[HEADER_CRC..HEADER_CRC + 4] == h'[HEADER_CRC..HEADER_CRC + 4]
    ensures Accepted(h') <==> h[..SIGNATURE] == h'[..SIGNATURE]
  {
    SameField(h, h', VERSION);
    SameField(h, h', HEADER_CRC);
    assert AgreeOutside(Covered(h), Covered(h'), i, 4);
    if h[..SIGNATURE] == h'[..SIGNATURE] {
      assert forall k :: 0 <= k < SIGNATURE ==> h[..SIGNATURE][k] == h'[..SIGNATURE][k];
      assert Covered(h) == Covered(h');
    } else {
      var k :| 0 <= k < SIGNATURE && h[k] != h'[k];
      assert Covered(h)[k] != Covered(h')[k];
      ByteBurstDetected(0, Covered(h), Covered(h'), i);
    }
  }

  // ------------------------------------------------------- the header as it is written

  /** The field says 0. */
  lemma ZeroField(s: seq<byte>, at: nat)
    requires at + 4 <= |s|
    ensures LE32(s, at) == 0 <==> s[at..at + 4] == [0, 0, 0, 0]
  {
    if LE32(s, at) == 0 {
      assert Index(s[at]) == Index(s[at + 1]) == Index(s[at + 2]) == Index(s[at + 3]) == 0;
    } else if s[at..at + 4] == [0, 0, 0, 0] {
      Get32(s, at, 0);
    }
  }

  /** The bytes that the checksum is taken over. */
  lemma CoveredIs(h: Header)
    ensures Covered(h) == h[..16] + [0, 0, 0, 0] + h[20..1488] + Zeros(if h[4..8] == [0, 0, 0, 0] then 64 else 144)
  {
    ZeroField(h, 4);
    var n := if h[4..8] == [0, 0, 0, 0] then 64 else 144;
    var t := h[..16] + [0, 0, 0, 0] + h[20..1488] + Zeros(n);
    assert |Covered(h)| == |t| == 1488 + n;
    forall k | 0 <= k < |t|
      ensures Covered(h)[k] == t[k]
    {
    }
  }

  /** A header is accepted exactly if its four checksum bytes are, lowest first, the checksum of what is
      before them, four zeros, what follows up to the signature, and zeros: 64 for version 0, else 144. */
  lemma AcceptedIff(h: Header)
    ensures Accepted(h) <==>
            h[16..20] == WordBytes(Reference(0, h[..16] + [0, 0, 0, 0] + h[20..1488]
                                                + Zeros(if h[4..8] == [0, 0, 0, 0] then 64 else 144)))
  {
    CoveredIs(h);
    GetWord(h, 16, Reference(0, Covered(h)));
  }

  /** The fields up to the checksum, what lies between it and the signature, and the signature. */
  ghost function Encode(magic: nat, version: nat, length: nat, crc: word, rest: seq<byte>, signature: seq<byte>): (h: Header)
    requires magic < 0x1_0000_0000 && version < 0x1_0000_0000 && length < 0x1_0000_0000_0000_0000
    requires |rest| == 1468 && |signature| == 144
  {
    Put32(magic) + Put32(version) + Put64(length) + WordBytes(crc) + rest + signature
  }

  /** An encoded header is read with its own magic, and accepted exactly if it has been sealed: with the
      checksum of the same header with checksum and signature blank, for version 0 of its first 1552
      bytes only. */
  lemma SealedIff(magic: nat, version: nat, length: nat, crc: word, rest: seq<byte>, signature: seq<byte>)
    requires magic < 0x1_0000_0000 && version < 0x1_0000_0000 && length < 0x1_0000_0000_0000_0000
    requires |rest| == 1468 && |signature| == 144
    ensures var h := Encode(magic, version, length, crc, rest, signature);
            && (LE32(h, 0) == 0xB007_C0DE <==> magic == 0xB007_C0DE)
            && (Accepted(h) <==>
                crc == Reference(0, Put32(magic) + Put32(version) + Put64(length) + [0, 0, 0, 0] + rest
                                    + Zeros(if version == 0 then 64 else 144)))
  {
    var h := Encode(magic, version, length, crc, rest, signature);
    assert h[0..4] == Put32(magic) && h[4..8] == Put32(version) && h[16..20] == WordBytes(crc);
    assert h[..16] == Put32(magic) + Put32(version) + Put64(length) && h[20..1488] == rest;
    Get32(h, 0, magic);
    Get32(h, 4, version);
    ZeroField(h, 4);
    AcceptedIff(h);
    var sealed := Reference(0, Put32(magic) + Put32(version) + Put64(length) + [0, 0, 0, 0] + rest
                               + Zeros(if version == 0 then 64 else 144));
    GetWord(h, 16, crc);
    GetWord(h, 16, sealed);
  }

  /** What the whole check accepts, bytes written out. */
  lemma ImageAcceptedIff(h: Header)
    ensures LE32(h, 0) == BOOT_MAGIC && Accepted(h) <==>
            && h[0..4] == [0xDE, 0xC0, 0x07, 0xB0]
            && h[16..20] == WordBytes(Reference(0, h[..16] + [0, 0, 0, 0] + h[20..1488]
                                                   + Zeros(if h[4..8] == [0, 0, 0, 0] then 64 else 144)))
  {
    AcceptedIff(h);
    var magic: seq<byte> := [0xDE, 0xC0, 0x07, 0xB0];
    FourParts(h, 0, h[0..4]);
    FourParts(h[0..4], 0, h[0..4]);
    FourParts(magic, 0, magic);
    FourBytesOf(h[0..4], magic);
  }
}
