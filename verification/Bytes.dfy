/** Little-endian fields and blanked ranges of byte blocks. */
module Bytes {
  import opened Crc32

  function LE16(s: seq<byte>, at: nat): (v: int)
    requires at + 2 <= |s|
    ensures 0 <= v < 0x1_0000
  {
    Index(s[at]) + 0x100 * Index(s[at + 1])
  }

  function LE32(s: seq<byte>, at: nat): (v: int)
    requires at + 4 <= |s|
    ensures 0 <= v < 0x1_0000_0000
  {
    LE16(s, at) + 0x1_0000 * LE16(s, at + 2)
  }

  function LE64(s: seq<byte>, at: nat): (v: int)
    requires at + 8 <= |s|
    ensures 0 <= v < 0x1_0000_0000_0000_0000
  {
    LE32(s, at) + 0x1_0000_0000 * LE32(s, at + 4)
  }

  /** The stored form of a checksum word. */
  function WordAt(s: seq<byte>, at: nat): word
    requires at + 4 <= |s|
  {
    Join(s[at], s[at + 1], s[at + 2], s[at + 3])
  }

  function Join(a: byte, b: byte, c: byte, d: byte): word {
    (a as word) | (b as word << 8) | (c as word << 16) | (d as word << 24)
  }

  function Zeroed(s: seq<byte>, at: nat, n: nat): (z: seq<byte>)
    ensures |z| == |s|
    ensures forall k :: 0 <= k < |s| ==> z[k] == if at <= k < at + n then 0 else s[k]
  {
    seq(|s|, k requires 0 <= k < |s| => if at <= k < at + n then 0 else s[k])
  }

  lemma SameByte(s: seq<byte>, t: seq<byte>, at: nat, j: nat)
    requires at + 4 <= |s| == |t| && s[at..at + 4] == t[at..at + 4] && j < 4
    ensures s[at + j] == t[at + j]
  {
    assert s[at..at + 4][j] == s[at + j] && t[at..at + 4][j] == t[at + j];
  }

  lemma SameField(s: seq<byte>, t: seq<byte>, at: nat)
    requires at + 4 <= |s| == |t| && s[at..at + 4] == t[at..at + 4]
    ensures LE32(s, at) == LE32(t, at) && WordAt(s, at) == WordAt(t, at)
    ensures forall k :: at <= k < at + 4 ==> s[k] == t[k]
  {
    SameByte(s, t, at, 0);
    SameByte(s, t, at, 1);
    SameByte(s, t, at, 2);
    SameByte(s, t, at, 3);
    assert LE16(s, at) == LE16(t, at) && LE16(s, at + 2) == LE16(t, at + 2);
  }

  lemma ZeroedOutside(s: seq<byte>, t: seq<byte>, at: nat, i: nat, k: nat)
    requires AgreeOutside(s, t, i, 4) && k < |s| && s[k] != t[k] && !(at <= k < at + 4)
    ensures AgreeOutside(Zeroed(s, at, 4), Zeroed(t, at, 4), i, 4) && Zeroed(s, at, 4)[k] != Zeroed(t, at, 4)[k]
  {
  }

  lemma WordInjective(a0: byte, a1: byte, a2: byte, a3: byte, b0: byte, b1: byte, b2: byte, b3: byte)
    requires Join(a0, a1, a2, a3) == Join(b0, b1, b2, b3)
    ensures a0 == b0 && a1 == b1 && a2 == b2 && a3 == b3
  {
    JoinParts(a0, a1, a2, a3);
    JoinParts(b0, b1, b2, b3);
  }

  lemma JoinParts(a: byte, b: byte, c: byte, d: byte)
    ensures WordBytes(Join(a, b, c, d)) == [a, b, c, d]
  {
  }

  /** A change inside a stored checksum changes its value. */
  lemma SameWord(s: seq<byte>, t: seq<byte>, at: nat)
    requires at + 4 <= |s| && AgreeOutside(s, t, at, 4)
    ensures WordAt(s, at) == WordAt(t, at) ==> s == t
  {
    if WordAt(s, at) == WordAt(t, at) {
      WordInjective(s[at], s[at + 1], s[at + 2], s[at + 3], t[at], t[at + 1], t[at + 2], t[at + 3]);
    }
  }

  // ------------------------------------------------------------- writing the fields

  function Flag(b: bool): byte {
    if b then 1 else 0
  }

  function Digit(b: bool): nat {
    if b then 1 else 0
  }

  /** A byte from its bits, lowest first. */
  function OfBits(b0: bool, b1: bool, b2: bool, b3: bool, b4: bool, b5: bool, b6: bool, b7: bool): byte {
    Flag(b0) | (Flag(b1) << 1) | (Flag(b2) << 2) | (Flag(b3) << 3) | (Flag(b4) << 4) | (Flag(b5) << 5) | (Flag(b6) << 6) | (Flag(b7) << 7)
  }

  lemma IndexOfBits(b0: bool, b1: bool, b2: bool, b3: bool, b4: bool, b5: bool, b6: bool, b7: bool)
    ensures Index(OfBits(b0, b1, b2, b3, b4, b5, b6, b7)) ==
            Digit(b0) + 2 * Digit(b1) + 4 * Digit(b2) + 8 * Digit(b3) + 16 * Digit(b4) + 32 * Digit(b5) + 64 * Digit(b6) + 128 * Digit(b7)
  {
  }

  function Odd(v: nat): bool {
    v % 2 == 1
  }

  lemma OneDigit(v: nat)
    ensures v == 2 * (v / 2) + Digit(Odd(v))
  {
  }

  /** v and the numbers left by halving it again and again. */
  predicate Halves(v: nat, h1: nat, h2: nat, h3: nat, h4: nat, h5: nat, h6: nat, h7: nat) {
    h1 == v / 2 && h2 == h1 / 2 && h3 == h2 / 2 && h4 == h3 / 2 && h5 == h4 / 2 && h6 == h5 / 2 && h7 == h6 / 2 && h7 < 2
  }

  lemma Binary(v: nat, h1: nat, h2: nat, h3: nat, h4: nat, h5: nat, h6: nat, h7: nat)
    requires Halves(v, h1, h2, h3, h4, h5, h6, h7)
    ensures v == Digit(Odd(v)) + 2 * Digit(Odd(h1)) + 4 * Digit(Odd(h2)) + 8 * Digit(Odd(h3))
                 + 16 * Digit(Odd(h4)) + 32 * Digit(Odd(h5)) + 64 * Digit(Odd(h6)) + 128 * Digit(Odd(h7))
  {
    OneDigit(v);
    OneDigit(h1);
    OneDigit(h2);
    OneDigit(h3);
    OneDigit(h4);
    OneDigit(h5);
    OneDigit(h6);
    OneDigit(h7);
  }

  lemma IndexOfHalves(v: nat, h1: nat, h2: nat, h3: nat, h4: nat, h5: nat, h6: nat, h7: nat)
    requires Halves(v, h1, h2, h3, h4, h5, h6, h7)
    ensures Index(OfBits(Odd(v), Odd(h1), Odd(h2), Odd(h3), Odd(h4), Odd(h5), Odd(h6), Odd(h7))) == v
  {
    var b0, b1, b2, b3, b4, b5, b6, b7 := Odd(v), Odd(h1), Odd(h2), Odd(h3), Odd(h4), Odd(h5), Odd(h6), Odd(h7);
    Binary(v, h1, h2, h3, h4, h5, h6, h7);
    IndexOfBits(b0, b1, b2, b3, b4, b5, b6, b7);
  }

  lemma ByteExists(v: nat) returns (b: byte)
    requires v < 0x100
    ensures Index(b) == v
  {
    var h1 := v / 2;
    var h2 := h1 / 2;
    var h3 := h2 / 2;
    var h4 := h3 / 2;
    var h5 := h4 / 2;
    var h6 := h5 / 2;
    var h7 := h6 / 2;
    IndexOfHalves(v, h1, h2, h3, h4, h5, h6, h7);
    b := OfBits(Odd(v), Odd(h1), Odd(h2), Odd(h3), Odd(h4), Odd(h5), Odd(h6), Odd(h7));
  }

  lemma EveryByte(v: nat)
    requires v < 0x100
    ensures exists b: byte :: Index(b) == v
  {
    var b := ByteExists(v);
  }

  /** The byte of a number. */
  ghost function Byte(v: nat): (b: byte)
    requires v < 0x100
    ensures Index(b) == v
  {
    EveryByte(v);
    var b: byte :| Index(b) == v;
    b
  }

  /** The bytes of a number, lowest first. */
  ghost function Put16(v: nat): (s: seq<byte>)
    requires v < 0x1_0000
    ensures |s| == 2
  {
    [Byte(v % 0x100), Byte(v / 0x100)]
  }

  ghost function Put32(v: nat): (s: seq<byte>)
    requires v < 0x1_0000_0000
    ensures |s| == 4
  {
    Put16(v % 0x1_0000) + Put16(v / 0x1_0000)
  }

  ghost function Put64(v: nat): (s: seq<byte>)
    requires v < 0x1_0000_0000_0000_0000
    ensures |s| == 8
  {
    Put32(v % 0x1_0000_0000) + Put32(v / 0x1_0000_0000)
  }

  lemma ByteOfIndex(b: byte)
    ensures Byte(Index(b)) == b
  {
    SameIndex(Byte(Index(b)), b);
  }

  lemma Split8(v: nat, low: nat, high: nat)
    requires v == low + 0x100 * high && low < 0x100
    ensures v % 0x100 == low && v / 0x100 == high
  {
  }

  /** The bytes that spell a number. */
  lemma Spell16(s: seq<byte>, v: nat)
    requires |s| == 2 && v == LE16(s, 0)
    ensures Put16(v) == s
  {
    var low, high := Index(s[0]), Index(s[1]);
    Split8(v, low, high);
    ByteOfIndex(s[0]);
    ByteOfIndex(s[1]);
    assert Put16(v) == [Byte(low), Byte(high)];
  }

  lemma Split16(v: nat, low: nat, high: nat)
    requires v == low + 0x1_0000 * high && low < 0x1_0000
    ensures v % 0x1_0000 == low && v / 0x1_0000 == high
  {
  }

  lemma HalfParts(s: seq<byte>, a: seq<byte>, b: seq<byte>)
    requires |s| == 4 && a == s[..2] && b == s[2..]
    ensures LE16(a, 0) == LE16(s, 0) && LE16(b, 0) == LE16(s, 2) && s == a + b
  {
  }

  lemma Spell32(s: seq<byte>, v: nat)
    requires |s| == 4 && v == LE32(s, 0)
    ensures Put32(v) == s
  {
    var a, b := s[..2], s[2..];
    var low, high := LE16(a, 0), LE16(b, 0);
    HalfParts(s, a, b);
    Split16(v, low, high);
    Spell16(a, low);
    Spell16(b, high);
  }

  lemma Split32(v: nat, low: nat, high: nat)
    requires v == low + 0x1_0000_0000 * high && low < 0x1_0000_0000
    ensures v % 0x1_0000_0000 == low && v / 0x1_0000_0000 == high
  {
  }

  lemma WordParts(s: seq<byte>, a: seq<byte>, b: seq<byte>)
    requires |s| == 8 && a == s[..4] && b == s[4..]
    ensures LE32(a, 0) == LE32(s, 0) && LE32(b, 0) == LE32(s, 4) && s == a + b
  {
  }

  lemma Spell64(s: seq<byte>, v: nat)
    requires |s| == 8 && v == LE64(s, 0)
    ensures Put64(v) == s
  {
    var a, b := s[..4], s[4..];
    var low, high := LE32(a, 0), LE32(b, 0);
    WordParts(s, a, b);
    Split32(v, low, high);
    Spell32(a, low);
    Spell32(b, high);
  }

  /** A field written at its place is read back. */
  lemma Get16(s: seq<byte>, at: nat, v: nat)
    requires v < 0x1_0000 && at + 2 <= |s| && s[at..at + 2] == Put16(v)
    ensures LE16(s, at) == v
  {
    assert s[at] == s[at..at + 2][0] && s[at + 1] == s[at..at + 2][1];
  }

  lemma Get32(s: seq<byte>, at: nat, v: nat)
    requires v < 0x1_0000_0000 && at + 4 <= |s| && s[at..at + 4] == Put32(v)
    ensures LE32(s, at) == v
  {
    assert s[at..at + 2] == s[at..at + 4][..2] == Put16(v % 0x1_0000);
    assert s[at + 2..at + 4] == s[at..at + 4][2..] == Put16(v / 0x1_0000);
    Get16(s, at, v % 0x1_0000);
    Get16(s, at + 2, v / 0x1_0000);
  }

  lemma Get64(s: seq<byte>, at: nat, v: nat)
    requires v < 0x1_0000_0000_0000_0000 && at + 8 <= |s| && s[at..at + 8] == Put64(v)
    ensures LE64(s, at) == v
  {
    assert s[at..at + 4] == s[at..at + 8][..4] == Put32(v % 0x1_0000_0000);
    assert s[at + 4..at + 8] == s[at..at + 8][4..] == Put32(v / 0x1_0000_0000);
    Get32(s, at, v % 0x1_0000_0000);
    Get32(s, at + 4, v / 0x1_0000_0000);
  }

  /** Stored checksums are read back, and only these bytes read as this word. */
  lemma GetWord(s: seq<byte>, at: nat, w: word)
    requires at + 4 <= |s|
    ensures WordAt(s, at) == w <==> s[at..at + 4] == WordBytes(w)
  {
    var f, t := s[at..at + 4], WordBytes(w);
    assert f[0] == s[at] && f[1] == s[at + 1] && f[2] == s[at + 2] && f[3] == s[at + 3];
    FourJoined(w);
    if WordAt(s, at) == w {
      WordInjective(s[at], s[at + 1], s[at + 2], s[at + 3], t[0], t[1], t[2], t[3]);
    }
  }

  function Zeros(n: nat): (s: seq<byte>)
    ensures |s| == n && forall k :: 0 <= k < n ==> s[k] == 0
  {
    seq(n, _ => 0)
  }

  lemma FourJoined(w: word)
    ensures var t := WordBytes(w); Join(t[0], t[1], t[2], t[3]) == w
  {
  }

  lemma Digits(a0: nat, a1: nat, a2: nat, a3: nat, b0: nat, b1: nat, b2: nat, b3: nat)
    requires a0 < 0x100 && a1 < 0x100 && a2 < 0x100 && a3 < 0x100
    requires b0 < 0x100 && b1 < 0x100 && b2 < 0x100 && b3 < 0x100
    ensures a0 + 0x100 * a1 + 0x1_0000 * a2 + 0x100_0000 * a3 == b0 + 0x100 * b1 + 0x1_0000 * b2 + 0x100_0000 * b3
            <==> a0 == b0 && a1 == b1 && a2 == b2 && a3 == b3
  {
  }

  lemma FourParts(s: seq<byte>, at: nat, f: seq<byte>)
    requires at + 4 <= |s| && f == s[at..at + 4]
    ensures LE32(s, at) == Index(f[0]) + 0x100 * Index(f[1]) + 0x1_0000 * Index(f[2]) + 0x100_0000 * Index(f[3])
  {
    assert f[0] == s[at] && f[1] == s[at + 1] && f[2] == s[at + 2] && f[3] == s[at + 3];
  }

  /** A number read from four bytes is theirs only. */
  lemma FourBytesOf(f: seq<byte>, t: seq<byte>)
    requires |f| == |t| == 4
    ensures LE32(f, 0) == LE32(t, 0) <==> f == t
  {
    FourParts(f, 0, f);
    FourParts(t, 0, t);
    Digits(Index(f[0]), Index(f[1]), Index(f[2]), Index(f[3]), Index(t[0]), Index(t[1]), Index(t[2]), Index(t[3]));
    if LE32(f, 0) == LE32(t, 0) {
      SameIndex(f[0], t[0]);
      SameIndex(f[1], t[1]);
      SameIndex(f[2], t[2]);
      SameIndex(f[3], t[3]);
      SameFour(f, t);
    }
  }

  lemma SameFour(f: seq<byte>, t: seq<byte>)
    requires |f| == |t| == 4 && f[0] == t[0] && f[1] == t[1] && f[2] == t[2] && f[3] == t[3]
    ensures f == t
  {
  }

  lemma SameIndex(a: byte, b: byte)
    ensures Index(a) == Index(b) <==> a == b
  {
  }
}
