/** Physical memory protection: decoding of the address registers and the first-match
    permission checks of the boot service. */
module Pmp {
  import opened Bits

  const PMPADDR_LIMIT: nat := 0x40_0000_0000_0000

  datatype Mode = Off | Tor | Na4 | Napot

  datatype Entry = Entry(baseAddr: nat, size: nat, mode: Mode, r: bool, w: bool, x: bool, l: bool)

  function ModeOf(config: nat): Mode {
    match And(config, 0x18) / 8
    case 0 => Off
    case 1 => Tor
    case 2 => Na4
    case _ => Napot
  }

  function NapotSize(addr: nat): nat {
    Pow2(TrailingOnes(addr) + 3)
  }

  function NapotBase(addr: nat): nat {
    4 * (addr - addr % Pow2(TrailingOnes(addr)))
  }

  /** The entry that a configuration byte and an address register denote; an inactive
      configuration leaves the other fields as they were, and so does a top-of-range entry without a
      predecessor with its region. */
  function Decoded(previous: seq<Entry>, entry: Entry, config: nat, addr: nat): Entry {
    var active := Entry(entry.baseAddr, entry.size, ModeOf(config),
                        And(config, 1) != 0, And(config, 2) != 0, And(config, 4) != 0, And(config, 128) != 0);
    match ModeOf(config)
    case Off => entry.(mode := Off)
    case Tor =>
      if previous == [] then active
      else
        var base := Wrap(previous[|previous| - 1].baseAddr + previous[|previous| - 1].size);
        active.(baseAddr := base, size := Wrap(4 * addr - base))
    case Na4 => active.(baseAddr := 4 * addr, size := 4)
    case Napot => active.(baseAddr := NapotBase(addr), size := NapotSize(addr))
  }

  /** The mask shrinks from 63 ones until the address ends in it; with no trailing ones the
      caller's mask is left alone. */
  method DecodeNapotSize(addr: nat, mask0: nat) returns (range: nat, pMask: nat)
    requires addr < PMPADDR_LIMIT
    ensures range == TrailingOnes(addr) + 3
    ensures pMask == if TrailingOnes(addr) == 0 then mask0 else Pow2(TrailingOnes(addr)) - 1
  {
    Limits();
    OnesBounded(addr, 54);
    var mask := Wrap(0 - 1) / 2;
    range, pMask := 66, mask0;
    ghost var k := 63;
    while mask != 0
      invariant 0 <= k <= 63 && range == k + 3 && mask == Pow2(k) - 1
      invariant TrailingOnes(addr) <= k && pMask == mask0
      decreases k
    {
      OnesMask(addr, k);
      if And(addr, mask) == mask {
        pMask := mask;
        break;
      }
      range := range - 1;
      mask := mask / 2;
      k := k - 1;
    }
  }

  method DecodeNapot(addr: nat) returns (baseAddr: nat, size: nat)
    requires addr < PMPADDR_LIMIT
    ensures baseAddr == NapotBase(addr) && size == NapotSize(addr)
  {
    var range, mask := DecodeNapotSize(addr, 0);
    MaskedBase(addr, mask);
    baseAddr := Wrap(4 * And(addr, U64 - 1 - mask));
    size := Pow2(range);
  }

  /** Stops at a top-of-range entry that has no predecessor. */
  method Decode(table: array<Entry>, i: nat, config: nat, addr: nat) returns (halted: bool)
    requires i < table.Length && config < 256 && addr < PMPADDR_LIMIT
    modifies table
    ensures halted <==> i == 0 && ModeOf(config) == Tor
    ensures table[..] == old(table[..])[i := Decoded(old(table[..])[..i], old(table[i]), config, addr)]
  {
    halted := false;
    var mode := ModeOf(config);
    var entry := table[i].(mode := mode);
    if mode != Off {
      entry := entry.(r := And(config, 1) != 0, w := And(config, 2) != 0, x := And(config, 4) != 0, l := And(config, 128) != 0);
    }
    match mode {
      case Off =>
      case Tor =>
        if i == 0 {
          halted := true;
        } else {
          var base := Wrap(table[i - 1].baseAddr + table[i - 1].size);
          entry := entry.(baseAddr := base, size := Wrap(4 * addr - base));
        }
      case Na4 =>
        entry := entry.(baseAddr := Wrap(4 * addr), size := 4);
      case Napot =>
        var base, size := DecodeNapot(addr);
        entry := entry.(baseAddr := base, size := size);
    }
    table[i] := entry;
  }

  // ------------------------------------------------------------- NAPOT arithmetic

  lemma Limits()
    ensures Pow2(64) == U64 && Pow2(54) == PMPADDR_LIMIT && Pow2(63) == U64 / 2
  {
    Pow2Sizes();
    Pow2Add(16, 6);
    Pow2Add(32, 22);
  }

  lemma MaskedBase(addr: nat, mask: nat)
    requires addr < PMPADDR_LIMIT && mask == Pow2(TrailingOnes(addr)) - 1
    ensures mask < U64
    ensures 4 * And(addr, U64 - 1 - mask) == NapotBase(addr) <= 4 * addr
  {
    Limits();
    OnesBounded(addr, 54);
    Pow2NotLess(TrailingOnes(addr), 64);
    AndHigh(addr, TrailingOnes(addr), 64, U64 - 1 - mask);
  }

  lemma NapotShape(addr: nat, m: nat, span: nat)
    requires m == Pow2(TrailingOnes(addr)) && span == 2 * m
    ensures Pow2(TrailingOnes(addr) + 1) == span && NapotSize(addr) == 4 * span
    ensures addr % m == m - 1
    ensures NapotBase(addr) == 4 * (span * (addr / span))
  {
    var t := TrailingOnes(addr);
    assert Pow2(t + 1) == span && Pow2(t + 2) == 2 * span && Pow2(t + 3) == 4 * span;
    OnesRemainder(addr, t);
    OnesRemainder(addr, t + 1);
    ZeroAbove(addr, m);
  }

  /** A NAPOT register with t trailing ones denotes 2^(t+3) bytes, aligned to their size, and an
      address is inside exactly when it agrees with the register above bit t
      (section 3.7.1 of the RISC-V Privileged Architecture 1.12). */
  lemma NapotRegion(addr: nat, x: nat)
    ensures NapotBase(addr) % NapotSize(addr) == 0
    ensures var span := Pow2(TrailingOnes(addr) + 1);
            NapotBase(addr) <= x < NapotBase(addr) + NapotSize(addr) <==> (x / 4) / span == addr / span
  {
    var span := Pow2(TrailingOnes(addr) + 1);
    NapotShape(addr, Pow2(TrailingOnes(addr)), span);
    Aligned(NapotBase(addr), NapotSize(addr), x, span, addr / span);
  }

  lemma Aligned(base: nat, size: nat, x: nat, span: nat, q: nat)
    requires span > 0 && size == 4 * span && base == 4 * (span * q)
    ensures base % size == 0
    ensures base <= x < base + size <==> (x / 4) / span == q
  {
    assert base == size * q;
    DivModUnique(base, size, q, 0);
    QuarterDiv(x, span);
    Span(x, size, q);
  }

  /** m - 1 below 2m: the bit of weight m is clear. */
  lemma ZeroAbove(a: nat, m: nat)
    requires m > 0 && a % m == m - 1 && a % (2 * m) != 2 * m - 1
    ensures a - a % m == (2 * m) * (a / (2 * m))
  {
    var q, r := a / (2 * m), a % (2 * m);
    assert a == (2 * m) * q + r;
    if r < m {
      assert a == m * (2 * q) + r by { assert (2 * m) * q == m * (2 * q); }
      DivModUnique(a, m, 2 * q, r);
    } else {
      assert a == m * (2 * q + 1) + (r - m) by { assert (2 * m) * q + m == m * (2 * q + 1); }
      DivModUnique(a, m, 2 * q + 1, r - m);
    }
  }

  lemma QuarterDiv(x: nat, m: nat)
    requires m > 0
    ensures (x / 4) / m == x / (4 * m)
  {
    var q, r := (x / 4) / m, (x / 4) % m;
    assert x / 4 == m * q + r;
    assert x == (4 * m) * q + (4 * r + x % 4) by { assert 4 * (m * q) == (4 * m) * q; }
    DivModUnique(x, 4 * m, q, 4 * r + x % 4);
  }

  lemma Span(x: nat, m: nat, q: nat)
    requires m > 0
    ensures m * q <= x < m * q + m <==> x / m == q
  {
    if m * q <= x < m * q + m {
      DivModUnique(x, m, q, x - m * q);
    }
    assert x == m * (x / m) + x % m;
  }

  /** A top-of-range entry should start where the previous address register points.  The decoder gets
      this right exactly if the previous entry is top-of-range itself, or is inactive and its fields
      happen to end there: an inactive entry that only supplies the lower bound is not decoded. */
  lemma TorLowerBound(before: seq<Entry>, e0: Entry, config0: nat, addr0: nat, e1: Entry, config1: nat, addr1: nat)
    requires addr0 < PMPADDR_LIMIT && addr1 < PMPADDR_LIMIT
    requires ModeOf(config1) == Tor && (before == [] ==> ModeOf(config0) != Tor)
    ensures Decoded(before + [Decoded(before, e0, config0, addr0)], e1, config1, addr1).baseAddr == 4 * addr0
            <==> ModeOf(config0) == Tor || (ModeOf(config0) == Off && Wrap(e0.baseAddr + e0.size) == 4 * addr0)
  {
    var first := Decoded(before, e0, config0, addr0);
    var all := before + [first];
    assert all[|all| - 1] == first;
    match ModeOf(config0)
    case Off =>
    case Tor =>
    case Na4 =>
    case Napot =>
      NapotEnd(addr0);
  }

  /** A top-of-range configuration that grants reading and perhaps writing. */
  predicate ReadableTor(config: nat, w: bool) {
    And(config, 0x18) == 8 && And(config, 1) == 1 && (And(config, 2) != 0) == w && And(config, 4) == 0 && And(config, 128) == 0
  }

  lemma TorConfigs()
    ensures ReadableTor(0x09, false) && ReadableTor(0x0B, true)
  {
    assert And(2, 6) == 2 * And(1, 3) == 2;
  }

  lemma TorDecodes(config: nat, w: bool, addr: nat, before: seq<Entry>, entry: Entry)
    requires ReadableTor(config, w) && before != []
    ensures var base := Wrap(before[|before| - 1].baseAddr + before[|before| - 1].size);
            Decoded(before, entry, config, addr) == Entry(base, Wrap(4 * addr - base), Tor, true, w, false, false)
  {
  }

  lemma NapotEnd(addr: nat)
    requires addr < PMPADDR_LIMIT
    ensures 4 * addr < NapotBase(addr) + NapotSize(addr) < U64
  {
    var m := Pow2(TrailingOnes(addr));
    NapotShape(addr, m, 2 * m);
    Limits();
    OnesBounded(addr, 54);
    Pow2NotLess(TrailingOnes(addr), 54);
  }

  // ----------------------------------------------------- configuration bytes and regions

  function ModeCode(mode: Mode): nat {
    match mode
    case Off => 0
    case Tor => 1
    case Na4 => 2
    case Napot => 3
  }

  function Flag(b: bool): nat {
    if b then 1 else 0
  }

  /** A configuration byte: permissions in the low bits, the mode, two reserved bits and the lock. */
  function ConfigByte(e: Entry, reserved: nat): (c: nat)
    requires reserved < 4
    ensures c < 0x100
  {
    Flag(e.r) + 2 * Flag(e.w) + 4 * Flag(e.x) + 8 * ModeCode(e.mode) + 32 * reserved + 128 * Flag(e.l)
  }

  lemma ModeField(c: nat)
    ensures And(c, 0x18) / 8 == (c / 8) % 4
  {
    AndEven(c, 12);
    AndEven(c / 2, 6);
    AndEven(c / 4, 3);
    AndLow(c / 8, 2);
    assert Pow2(2) == 4 && c / 2 / 2 == c / 4 && c / 4 / 2 == c / 8;
  }

  lemma {:induction false} AndFlag(c: nat, k: nat)
    ensures And(c, Pow2(k)) == Pow2(k) * ((c / Pow2(k)) % 2)
    decreases k
  {
    if k == 0 {
      assert And(c, 1) == if c == 0 then 0 else c % 2 + 2 * And(c / 2, 0);
    } else {
      var m := Pow2(k - 1);
      AndEven(c, m);
      AndFlag(c / 2, k - 1);
      ModDouble(c, m);
      assert 2 * (m * ((c / 2 / m) % 2)) == (2 * m) * ((c / 2 / m) % 2);
    }
  }

  lemma FlagAt(c: nat, k: nat, p: nat)
    requires p == Pow2(k)
    ensures And(c, p) == p * ((c / p) % 2)
  {
    AndFlag(c, k);
  }

  lemma FlagFields(c: nat)
    ensures And(c, 1) == c % 2 && And(c, 2) == 2 * ((c / 2) % 2) && And(c, 4) == 4 * ((c / 4) % 2) && And(c, 128) == 128 * ((c / 128) % 2)
  {
    FlagAt(c, 0, 1);
    FlagAt(c, 1, 2);
    FlagAt(c, 2, 4);
    FlagAt(c, 7, 128);
  }

  lemma Digits(c: nat, r: nat, w: nat, x: nat, mode: nat, y: nat, l: nat)
    requires r < 2 && w < 2 && x < 2 && mode < 4 && y < 4 && l < 2
    requires c == r + 2 * w + 4 * x + 8 * mode + 32 * y + 128 * l
    ensures c % 2 == r && (c / 2) % 2 == w && (c / 4) % 2 == x && (c / 8) % 4 == mode && (c / 128) % 2 == l
  {
    assert c / 2 == w + 2 * (x + 2 * mode + 8 * y + 32 * l);
    assert c / 4 == x + 2 * (mode + 4 * y + 16 * l);
    assert c / 8 == mode + 4 * (y + 4 * l);
    assert c / 128 == l;
  }

  /** What a configuration byte was made from is what the decoder makes of it; only an inactive one
      leaves the permissions as they were. */
  lemma ConfigReadBack(before: seq<Entry>, entry: Entry, e: Entry, reserved: nat, addr: nat)
    requires reserved < 4
    ensures var d := Decoded(before, entry, ConfigByte(e, reserved), addr);
            && d.mode == e.mode
            && (e.mode != Off ==> d.r == e.r && d.w == e.w && d.x == e.x && d.l == e.l)
            && (e.mode == Off ==> d == entry.(mode := Off))
  {
    var c := ConfigByte(e, reserved);
    ModeField(c);
    FlagFields(c);
    Digits(c, Flag(e.r), Flag(e.w), Flag(e.x), ModeCode(e.mode), reserved, Flag(e.l));
  }

  /** The bytes that a decoded entry holds: four for NA4, the aligned block of a NAPOT register, and for
      a top-of-range entry those from the end of the entry before it up to its own address. */
  lemma DecodedRegion(before: seq<Entry>, entry: Entry, config: nat, addr: nat, a: nat)
    requires addr < PMPADDR_LIMIT
    ensures var d := Decoded(before, entry, config, addr);
            match ModeOf(config)
            case Off => !Holds(d, a)
            case Na4 => Holds(d, a) <==> a / 4 == addr
            case Napot =>
              var span := Pow2(TrailingOnes(addr) + 1);
              Holds(d, a) <==> (a / 4) / span == addr / span
            case Tor =>
              before != [] && before[|before| - 1].baseAddr + before[|before| - 1].size <= 4 * addr ==>
                (Holds(d, a) <==> before[|before| - 1].baseAddr + before[|before| - 1].size <= a < 4 * addr)
  {
    NapotRegion(addr, a);
    Limits();
  }

  // ------------------------------------------------------------- permission checks

  /** An active entry that starts at or below the region and ends strictly above it. */
  predicate Covers(e: Entry, start: int, length: nat) {
    e.mode != Off && e.baseAddr <= start && e.baseAddr + e.size > start + length
  }

  /** Entry i is the first to cover the region. */
  ghost predicate Decides(table: seq<Entry>, i: int, start: int, length: nat) {
    0 <= i < |table| && Covers(table[i], start, length) && forall j :: 0 <= j < i ==> !Covers(table[j], start, length)
  }

  /** No write is refused unless the first covering entry refuses it. */
  ghost predicate MayWrite(table: seq<Entry>, start: int, length: nat) {
    forall i :: Decides(table, i, start, length) ==> table[i].w
  }

  /** A read needs a first covering entry that grants it. */
  ghost predicate MayRead(table: seq<Entry>, start: int, length: nat) {
    exists i :: Decides(table, i, start, length) && table[i].r
  }

  /** An entry covers a region exactly if it holds each of its bytes and the one behind it. */
  lemma CoversIff(e: Entry, start: nat, length: nat)
    ensures Covers(e, start, length) <==> forall a: nat :: start <= a <= start + length ==> Holds(e, a)
  {
    if forall a: nat :: start <= a <= start + length ==> Holds(e, a) {
      assert Holds(e, start) && Holds(e, start + length);
    }
  }

  lemma DecidesNext(e: Entry, rest: seq<Entry>, i: int, start: int, length: nat)
    ensures Decides([e] + rest, i, start, length)
            <==> if i == 0 then Covers(e, start, length) else !Covers(e, start, length) && Decides(rest, i - 1, start, length)
  {
    var t := [e] + rest;
    assert forall j :: 1 <= j < |t| ==> t[j] == rest[j - 1];
    if 0 < i <= |rest| && !Covers(e, start, length) && Decides(rest, i - 1, start, length) {
      forall j | 0 <= j < i
        ensures !Covers(t[j], start, length)
      {
        assert j > 0 ==> t[j] == rest[j - 1];
      }
    }
    if 0 < i < |t| && Decides(t, i, start, length) {
      assert !Covers(t[0], start, length);
      forall j | 0 <= j < i - 1
        ensures !Covers(rest[j], start, length)
      {
        assert t[j + 1] == rest[j];
      }
    }
  }

  /** Entry by entry: the first to cover the region decides, and if none does a write is permitted and
      a read is not. */
  lemma FirstDecides(e: Entry, rest: seq<Entry>, start: int, length: nat)
    ensures MayWrite([], start, length) && !MayRead([], start, length)
    ensures MayWrite([e] + rest, start, length) <==> if Covers(e, start, length) then e.w else MayWrite(rest, start, length)
    ensures MayRead([e] + rest, start, length) <==> if Covers(e, start, length) then e.r else MayRead(rest, start, length)
  {
    var t := [e] + rest;
    forall i: int
      ensures Decides(t, i, start, length)
              <==> if i == 0 then Covers(e, start, length) else !Covers(e, start, length) && Decides(rest, i - 1, start, length)
    {
      DecidesNext(e, rest, i, start, length);
    }
    if Covers(e, start, length) {
      assert Decides(t, 0, start, length);
    } else {
      forall i | Decides(rest, i, start, length)
        ensures Decides(t, i + 1, start, length) && t[i + 1] == rest[i]
      {
        assert Decides(rest, (i + 1) - 1, start, length);
      }
      forall i | Decides(t, i, start, length)
        ensures Decides(rest, i - 1, start, length) && t[i] == rest[i - 1]
      {
      }
    }
  }

  method CheckWrite(table: seq<Entry>, start: int, length: nat) returns (result: bool)
    ensures result <==> MayWrite(table, start, length)
  {
    result := true;
    var i := 0;
    while i < |table|
      invariant 0 <= i <= |table| && result
      invariant forall j :: 0 <= j < i ==> !Covers(table[j], start, length)
    {
      if table[i].mode != Off && table[i].baseAddr <= start && table[i].baseAddr + table[i].size > start + length {
        assert Decides(table, i, start, length);
        result := table[i].w;
        break;
      }
      i := i + 1;
    }
  }

  method CheckRead(table: seq<Entry>, start: int, length: nat) returns (result: bool)
    ensures result <==> MayRead(table, start, length)
  {
    result := false;
    var i := 0;
    while i < |table|
      invariant 0 <= i <= |table| && !result
      invariant forall j :: 0 <= j < i ==> !Covers(table[j], start, length)
    {
      if table[i].mode != Off && table[i].baseAddr <= start && table[i].baseAddr + table[i].size > start + length {
        assert Decides(table, i, start, length);
        result := table[i].r;
        break;
      }
      i := i + 1;
    }
  }

  // ------------------------------------------------- the checks against single bytes

  predicate Holds(e: Entry, a: nat) {
    e.mode != Off && e.baseAddr <= a < e.baseAddr + e.size
  }

  /** Entry i is the first to hold the byte: the one that the hardware applies. */
  ghost predicate Matches(table: seq<Entry>, i: nat, a: nat) {
    i < |table| && Holds(table[i], a) && forall j :: 0 <= j < i ==> !Holds(table[j], a)
  }

  /** Each of the n bytes is matched by no entry or by one that grants writing. */
  ghost predicate BytesWritable(table: seq<Entry>, start: nat, n: nat) {
    forall a: nat, i: nat :: start <= a < start + n && Matches(table, i, a) ==> table[i].w
  }

  /** The same regions with other write permissions. */
  ghost function Granting(table: seq<Entry>, grants: seq<bool>): (r: seq<Entry>)
    requires |grants| == |table|
    ensures |r| == |table|
  {
    seq(|table|, i requires 0 <= i < |table| => table[i].(w := grants[i]))
  }

  /** Whatever the permissions, a passed check of length bytes means that n bytes can be written. */
  ghost predicate CheckSuffices(table: seq<Entry>, start: nat, length: nat, n: nat) {
    forall grants: seq<bool> :: |grants| == |table| && MayWrite(Granting(table, grants), start, length) ==>
      BytesWritable(Granting(table, grants), start, n)
  }

  /** No byte is matched by an entry other than the one that decides the check. */
  ghost predicate OneEntry(table: seq<Entry>, start: nat, length: nat, n: nat) {
    forall a: nat, i: nat :: start <= a < start + n && Matches(table, i, a) ==> Decides(table, i, start, length)
  }

  lemma GrantingSame(table: seq<Entry>, grants: seq<bool>, i: nat, a: nat, start: nat, length: nat)
    requires |grants| == |table|
    ensures Matches(Granting(table, grants), i, a) <==> Matches(table, i, a)
    ensures Decides(Granting(table, grants), i, start, length) <==> Decides(table, i, start, length)
  {
    var r := Granting(table, grants);
    forall j | 0 <= j < |table|
      ensures Holds(r[j], a) == Holds(table[j], a) && Covers(r[j], start, length) == Covers(table[j], start, length)
    {
    }
  }

  lemma OneEntrySuffices(table: seq<Entry>, start: nat, length: nat, n: nat)
    requires OneEntry(table, start, length, n)
    ensures CheckSuffices(table, start, length, n)
  {
    forall grants: seq<bool> | |grants| == |table| && MayWrite(Granting(table, grants), start, length)
      ensures BytesWritable(Granting(table, grants), start, n)
    {
      var r := Granting(table, grants);
      forall a: nat, i: nat | start <= a < start + n && Matches(r, i, a)
        ensures r[i].w
      {
        GrantingSame(table, grants, i, a, start, length);
      }
    }
  }

  /** Let every entry grant writing except the one that matches a byte without deciding. */
  lemma OtherEntryFails(table: seq<Entry>, start: nat, length: nat, n: nat, a: nat, i: nat)
    requires start <= a < start + n && Matches(table, i, a) && !Decides(table, i, start, length)
    ensures !CheckSuffices(table, start, length, n)
  {
    var grants := seq(|table|, j => j != i);
    var r := Granting(table, grants);
    forall j | Decides(r, j, start, length)
      ensures r[j].w
    {
      GrantingSame(table, grants, j, a, start, length);
    }
    GrantingSame(table, grants, i, a, start, length);
    assert MayWrite(r, start, length) && !r[i].w;
  }

  /** The check of a region guarantees that the bytes written can be written, for all permissions, in
      exactly the layouts in which none of these bytes is first held by an entry other than the one
      that decides the check.  With n greater than length this covers bytes beyond the region. */
  lemma CheckSufficesIff(table: seq<Entry>, start: nat, length: nat, n: nat)
    ensures CheckSuffices(table, start, length, n) <==> OneEntry(table, start, length, n)
  {
    if OneEntry(table, start, length, n) {
      OneEntrySuffices(table, start, length, n);
    } else {
      var a: nat, i: nat :| start <= a < start + n && Matches(table, i, a) && !Decides(table, i, start, length);
      OtherEntryFails(table, start, length, n, a, i);
    }
  }
}
