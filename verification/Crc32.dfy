/** CRC-32 as computed by the boot firmware: a byte-wise, table-driven update whose
    table is built once by a loop with an 8-bit counter.  The reference is the
    bit-serial shift register that consumes one message bit per step. */
module Crc32 {

  type byte = bv8
  type word = bv32

  const POLY: word := 0xEDB8_8320

  // ---------------------------------------------------------------- reference

  /** One shift of the reflected register. */
  function Shift(r: word): word {
    if r & 1 == 1 then (r >> 1) ^ POLY else r >> 1
  }

  function ShiftN(r: word, n: nat): word
    decreases n
  {
    if n == 0 then r else ShiftN(Shift(r), n - 1)
  }

  function Xor(a: word, b: word): word {
    a ^ b
  }

  function Not(a: word): word {
    !a
  }

  function BitWord(b: bool): word {
    if b then 1 else 0
  }

  /** The shift register: each message bit is added at the low end before the shift. */
  function Serial(r: word, bits: seq<bool>): word
    decreases |bits|
  {
    if bits == [] then r else Serial(Shift(Xor(r, BitWord(bits[0]))), bits[1..])
  }

  /** The bits of a byte, least significant first. */
  function ByteBits(b: byte): (bits: seq<bool>)
    ensures |bits| == 8
  {
    [b & 1 != 0, b & 2 != 0, b & 4 != 0, b & 8 != 0,
     b & 16 != 0, b & 32 != 0, b & 64 != 0, b & 128 != 0]
  }

  function Bits(s: seq<byte>): (bits: seq<bool>)
    ensures |bits| == 8 * |s|
  {
    if s == [] then [] else ByteBits(s[0]) + Bits(s[1..])
  }

  /** Section 8 of RFC 1952, one message bit at a time. */
  function Reference(seed: word, s: seq<byte>): word {
    Not(Serial(Not(seed), Bits(s)))
  }

  // ------------------------------------------------------------ table and loop

  function TableEntry(i: byte): word {
    ShiftN(i as word, 8)
  }

  function Index(i: byte): (n: int)
    ensures 0 <= n < 256
  {
    i as int
  }

  ghost predicate EntryIs(t: seq<word>, i: byte)
    requires |t| == 256
  {
    t[Index(i)] == TableEntry(i)
  }

  /** The entries below i are done; a counter that has wrapped to 0 means all of them. */
  ghost predicate FilledBelow(t: seq<word>, i: byte) {
    |t| == 256 && forall b: byte :: i == 0 || b < i ==> EntryIs(t, b)
  }

  ghost predicate IsTable(t: seq<word>) {
    FilledBelow(t, 0)
  }

  /** The 8-bit counter runs 1, 2, .., 255 and stops when it wraps to 0; entry 0 keeps
      its initial value. */
  method GenTable(table: array<word>)
    requires table.Length == 256 && table[0] == 0
    modifies table
    ensures IsTable(table[..])
  {
    FilledAtStart(table[..]);
    var i: byte := 1;
    while i != 0
      invariant FilledBelow(table[..], i)
      decreases if i == 0 then 0 else 256 - Index(i)
    {
      var crc := GenEntry(i);
      ghost var t := table[..];
      TableExtend(t, i);
      table[Index(i)] := crc;
      assert table[..] == t[Index(i) := crc];
      i := i + 1;
    }
  }

  /** The inner loop: eight conditional shifts. */
  method GenEntry(i: byte) returns (crc: word)
    ensures crc == TableEntry(i)
  {
    crc := i as word;
    var bit := 8;
    while bit != 0
      invariant 0 <= bit <= 8
      invariant ShiftN(crc, bit) == TableEntry(i)
    {
      crc := if crc & 1 == 1 then (crc >> 1) ^ POLY else crc >> 1;
      bit := bit - 1;
    }
  }

  lemma FilledAtStart(t: seq<word>)
    requires |t| == 256 && t[0] == 0
    ensures FilledBelow(t, 1)
  {
    assert Shift(0) == 0;
    assert ShiftN(0, 8) == ShiftN(0, 6) == ShiftN(0, 4) == ShiftN(0, 2);
    assert TableEntry(0) == 0;
    forall b: byte | b < 1
      ensures EntryIs(t, b)
    {
      assert b == 0;
    }
  }

  lemma IndexInjective(a: byte, b: byte)
    requires Index(a) == Index(b)
    ensures a == b
  {
  }

  lemma IndexSucc(i: byte)
    ensures i + 1 != 0 ==> Index(i + 1) == Index(i) + 1
  {
  }

  lemma BelowSucc(b: byte, i: byte)
    requires i != 0 && (i + 1 == 0 || b < i + 1)
    ensures b == i || b < i
  {
  }

  lemma TableExtend(t: seq<word>, i: byte)
    requires i != 0 && FilledBelow(t, i)
    ensures FilledBelow(t[Index(i) := TableEntry(i)], i + 1)
    ensures i + 1 != 0 ==> Index(i + 1) == Index(i) + 1
  {
    IndexSucc(i);
    var t' := t[Index(i) := TableEntry(i)];
    forall b: byte | i + 1 == 0 || b < i + 1
      ensures EntryIs(t', b)
    {
      BelowSucc(b, i);
      if b != i {
        assert EntryIs(t, b);
        if Index(b) == Index(i) {
          IndexInjective(b, i);
        }
      }
    }
  }

  function UpdateByte(table: seq<word>, crc: word, b: byte): word
    requires |table| == 256
  {
    var index := (Xor(crc, b as word) & 0xFF) as byte;
    Xor(crc >> 8, table[Index(index)])
  }

  /** The unit's static state: the table and the flag that makes the first call build it. */
  class Calculator {
    const table: array<word>
    var initialized: bool

    ghost predicate Valid()
      reads this, table
    {
      table.Length == 256 && if initialized then IsTable(table[..]) else table[0] == 0
    }

    constructor ()
      ensures Valid() && fresh(table)
    {
      table := new word[256](_ => 0);
      initialized := false;
    }

    /** A null input is the empty sequence. */
    method CalculateEx(seed: word, input: seq<byte>) returns (crc: word)
      requires Valid()
      modifies this, table
      ensures Valid()
      ensures crc == Reference(seed, input)
    {
      crc := Not(seed);
      if !initialized {
        initialized := true;
        GenTable(table);
      }
      var n := 0;
      while n < |input|
        invariant 0 <= n <= |input|
        invariant initialized && IsTable(table[..])
        invariant Serial(crc, Bits(input[n..])) == Serial(Not(seed), Bits(input))
      {
        UpdateIsEightBits(table[..], crc, input[n]);
        SerialConcat(crc, ByteBits(input[n]), Bits(input[n + 1..]));
        assert input[n..][1..] == input[n + 1..];
        crc := UpdateByte(table[..], crc, input[n]);
        n := n + 1;
      }
      crc := Not(crc);
    }

    method Calculate(input: seq<byte>) returns (crc: word)
      requires Valid()
      modifies this, table
      ensures Valid()
      ensures crc == Reference(0, input)
    {
      crc := CalculateEx(0, input);
    }
  }

  // ------------------------------------------------ shifting is linear and injective

  /** What the shift adds back when the low bit falls out. */
  function Feedback(r: word): word {
    if r & 1 == 1 then POLY else 0
  }

  function Half(r: word): word {
    r >> 1
  }

  function Double(r: word): word {
    r << 1
  }

  lemma XorZero(a: word)
    ensures Xor(a, 0) == a && Xor(a, a) == 0
  {
  }

  lemma XorCancel(a: word, b: word)
    ensures Xor(Xor(a, b), b) == a
  {
  }

  lemma XorAssoc(a: word, b: word, c: word)
    ensures Xor(a, Xor(b, c)) == Xor(Xor(a, b), c)
  {
  }

  lemma XorComm(a: word, b: word)
    ensures Xor(a, b) == Xor(b, a)
  {
  }

  lemma XorSwap(a: word, b: word, f: word, g: word)
    ensures Xor(Xor(a, b), Xor(f, g)) == Xor(Xor(a, f), Xor(b, g))
  {
    XorAssoc(Xor(a, b), f, g);
    XorAssoc(a, b, f);
    XorComm(b, f);
    XorAssoc(a, f, b);
    XorAssoc(Xor(a, f), b, g);
  }

  lemma ShiftSplit(r: word)
    ensures Shift(r) == Xor(Half(r), Feedback(r))
  {
    XorZero(Half(r));
    if r & 1 == 1 {
      assert Feedback(r) == POLY;
    } else {
      assert Feedback(r) == 0;
    }
  }

  lemma FeedbackLinear(a: word, b: word)
    ensures Feedback(Xor(a, b)) == Xor(Feedback(a), Feedback(b))
  {
  }

  lemma HalfLinear(a: word, b: word)
    ensures Half(Xor(a, b)) == Xor(Half(a), Half(b))
  {
  }

  lemma ShiftLinear(a: word, b: word)
    ensures Shift(Xor(a, b)) == Xor(Shift(a), Shift(b))
  {
    ShiftSplit(a);
    ShiftSplit(b);
    ShiftSplit(Xor(a, b));
    FeedbackLinear(a, b);
    HalfLinear(a, b);
    XorSwap(Half(a), Half(b), Feedback(a), Feedback(b));
  }

  lemma {:induction false} ShiftNLinear(a: word, b: word, n: nat)
    ensures ShiftN(Xor(a, b), n) == Xor(ShiftN(a, n), ShiftN(b, n))
    decreases n
  {
    if n > 0 {
      ShiftLinear(a, b);
      ShiftNLinear(Shift(a), Shift(b), n - 1);
    }
  }

  /** The polynomial has its top coefficient set, so a shift loses nothing. */
  lemma ShiftInjective(a: word, b: word)
    requires Shift(a) == Shift(b)
    ensures a == b
  {
  }

  lemma {:induction false} ShiftNInjective(a: word, b: word, n: nat)
    requires ShiftN(a, n) == ShiftN(b, n)
    ensures a == b
    decreases n
  {
    if n > 0 {
      ShiftNInjective(Shift(a), Shift(b), n - 1);
      ShiftInjective(a, b);
    }
  }

  // ----------------------------------------- up to 32 bits enter the register at once

  /** The bits as a word, first bit lowest. */
  function Word(bits: seq<bool>): word
    decreases |bits|
  {
    if bits == [] then 0 else Xor(BitWord(bits[0]), Double(Word(bits[1..])))
  }

  /** Ones from bit n upwards. */
  function TopMask(n: nat): word {
    if n == 0 then 0xFFFF_FFFF else Double(TopMask(n - 1))
  }

  function Sixteen(w: word): word {
    w << 4
  }

  lemma TopMaskFour(n: nat)
    ensures TopMask(n + 4) == Sixteen(TopMask(n))
  {
    assert TopMask(n + 1) == Double(TopMask(n));
    assert TopMask(n + 2) == Double(TopMask(n + 1));
    assert TopMask(n + 3) == Double(TopMask(n + 2));
    DoubleFour(TopMask(n));
  }

  lemma DoubleFour(w: word)
    ensures Double(Double(Double(Double(w)))) == Sixteen(w)
  {
  }

  lemma {:induction false} TopMaskShrinks(n: nat)
    ensures TopMask(n) & TopMask(n + 1) == TopMask(n + 1)
  {
    if n > 0 {
      TopMaskShrinks(n - 1);
      DoubleAnd(TopMask(n - 1), TopMask(n));
    }
  }

  lemma DoubleAnd(a: word, b: word)
    requires a & b == b
    ensures Double(a) & Double(b) == Double(b)
  {
  }

  lemma {:induction false} TopMaskTop(n: nat)
    requires n <= 31
    ensures TopMask(n) & 0x8000_0000 == 0x8000_0000
    decreases 31 - n
  {
    if n == 31 {
      TopMaskFour(0); TopMaskFour(4); TopMaskFour(8); TopMaskFour(12);
      TopMaskFour(16); TopMaskFour(20); TopMaskFour(24);
      assert TopMask(30) == Double(Double(TopMask(28)));
    } else {
      TopMaskTop(n + 1);
      TopMaskShrinks(n);
    }
  }

  predicate Disjoint(a: word, b: word) {
    a & b == 0
  }

  lemma {:induction false} WordFits(bits: seq<bool>)
    ensures Disjoint(Word(bits), TopMask(|bits|))
    decreases |bits|
  {
    if bits != [] {
      WordFits(bits[1..]);
      FitsDouble(Word(bits[1..]), TopMask(|bits| - 1), bits[0]);
    }
  }

  lemma FitsDouble(w: word, m: word, b: bool)
    requires Disjoint(w, m)
    ensures Disjoint(Xor(BitWord(b), Double(w)), Double(m))
  {
  }

  lemma TopClear(w: word, m: word)
    requires Disjoint(w, m) && m & 0x8000_0000 == 0x8000_0000
    ensures Shift(Double(w)) == w && Half(Double(w)) == w
  {
  }

  lemma ShortWord(bits: seq<bool>)
    requires |bits| <= 31
    ensures Shift(Double(Word(bits))) == Word(bits) && Half(Double(Word(bits))) == Word(bits)
  {
    WordFits(bits);
    TopMaskTop(|bits|);
    TopClear(Word(bits), TopMask(|bits|));
  }

  lemma {:induction false} SerialWord(r: word, bits: seq<bool>)
    requires |bits| <= 32
    ensures Serial(r, bits) == ShiftN(Xor(r, Word(bits)), |bits|)
    decreases |bits|
  {
    if bits == [] {
      XorZero(r);
    } else {
      var b, w := BitWord(bits[0]), Word(bits[1..]);
      SerialWord(Shift(Xor(r, b)), bits[1..]);
      XorAssoc(r, b, Double(w));
      ShiftLinear(Xor(r, b), Double(w));
      ShortWord(bits[1..]);
    }
  }

  lemma LowBit(a: bool, b: bool, v: word, w: word)
    requires Xor(BitWord(a), Double(v)) == Xor(BitWord(b), Double(w))
    ensures a == b && Double(v) == Double(w)
  {
  }

  lemma {:induction false} WordInjective(a: seq<bool>, b: seq<bool>)
    requires |a| == |b| <= 32 && Word(a) == Word(b)
    ensures a == b
    decreases |a|
  {
    if a != [] {
      LowBit(a[0], b[0], Word(a[1..]), Word(b[1..]));
      ShortWord(a[1..]);
      ShortWord(b[1..]);
      WordInjective(a[1..], b[1..]);
      assert a == [a[0]] + a[1..] && b == [b[0]] + b[1..];
    }
  }

  // ---------------------------------------------- the table step is eight serial steps

  /** The high bytes only move down during eight shifts. */
  lemma ShiftHigh(r: word)
    requires r & 0xFF == 0
    ensures ShiftN(r, 8) == r >> 8
  {
    var r2, r4, r6 := r >> 2, r >> 4, r >> 6;
    assert Shift(r) == r >> 1 && Shift(r >> 1) == r2 && Shift(r2) == r >> 3 && Shift(r >> 3) == r4;
    assert Shift(r4) == r >> 5 && Shift(r >> 5) == r6 && Shift(r6) == r >> 7 && Shift(r >> 7) == r >> 8;
    assert ShiftN(r, 8) == ShiftN(r2, 6) == ShiftN(r4, 4) == ShiftN(r6, 2) == ShiftN(r >> 8, 0);
  }

  lemma HighLow(x: word, crc: word, b: byte, high: word, low: word)
    requires x == Xor(crc, b as word) && high == x & 0xFFFF_FF00 && low == x & 0xFF
    ensures x == Xor(high, low)
    ensures high & 0xFF == 0 && high >> 8 == crc >> 8
    ensures low as byte as word == low
  {
  }

  lemma LookUp(table: seq<word>, i: byte, low: word)
    requires IsTable(table) && i as word == low
    ensures table[Index(i)] == ShiftN(low, 8)
  {
    assert EntryIs(table, i);
  }

  lemma UpdateIsEightShifts(table: seq<word>, crc: word, b: byte)
    requires IsTable(table)
    ensures UpdateByte(table, crc, b) == ShiftN(Xor(crc, b as word), 8)
  {
    var x := Xor(crc, b as word);
    var high, low := x & 0xFFFF_FF00, x & 0xFF;
    HighLow(x, crc, b, high, low);
    ShiftNLinear(high, low, 8);
    ShiftHigh(high);
    LookUp(table, low as byte, low);
  }

  lemma ByteWord(b: byte)
    ensures Word(ByteBits(b)) == b as word
  {
    var s := ByteBits(b);
    WordFrom(s, 0);
    WordFrom(s, 1);
    WordFrom(s, 2);
    WordFrom(s, 3);
    WordFrom(s, 4);
    WordFrom(s, 5);
    WordFrom(s, 6);
    WordFrom(s, 7);
    ByteValue(b, Word(s[7..]), Word(s[6..]), Word(s[5..]), Word(s[4..]), Word(s[3..]), Word(s[2..]), Word(s[1..]));
    assert s[0..] == s;
  }

  lemma WordFrom(s: seq<bool>, k: nat)
    requires k < |s|
    ensures Word(s[k..]) == Xor(BitWord(s[k]), Double(Word(s[k + 1..])))
  {
    assert s[k..][1..] == s[k + 1..];
  }

  lemma ByteValue(b: byte, w7: word, w6: word, w5: word, w4: word, w3: word, w2: word, w1: word)
    requires w7 == Xor(BitWord(b & 128 != 0), Double(0))
    requires w6 == Xor(BitWord(b & 64 != 0), Double(w7)) && w5 == Xor(BitWord(b & 32 != 0), Double(w6))
    requires w4 == Xor(BitWord(b & 16 != 0), Double(w5)) && w3 == Xor(BitWord(b & 8 != 0), Double(w4))
    requires w2 == Xor(BitWord(b & 4 != 0), Double(w3)) && w1 == Xor(BitWord(b & 2 != 0), Double(w2))
    ensures Xor(BitWord(b & 1 != 0), Double(w1)) == b as word
  {
  }

  lemma UpdateIsEightBits(table: seq<word>, crc: word, b: byte)
    requires IsTable(table)
    ensures UpdateByte(table, crc, b) == Serial(crc, ByteBits(b))
  {
    UpdateIsEightShifts(table, crc, b);
    ByteWord(b);
    SerialWord(crc, ByteBits(b));
  }

  lemma {:induction false} SerialConcat(r: word, a: seq<bool>, b: seq<bool>)
    ensures Serial(r, a + b) == Serial(Serial(r, a), b)
    decreases |a|
  {
    if a == [] {
      assert a + b == b;
    } else {
      assert (a + b)[1..] == a[1..] + b;
      SerialConcat(Shift(Xor(r, BitWord(a[0]))), a[1..], b);
    }
  }

  // -------------------------------------------------------------- main properties

  lemma {:induction false} BitsConcat(a: seq<byte>, b: seq<byte>)
    ensures Bits(a + b) == Bits(a) + Bits(b)
  {
    if a == [] {
      assert a + b == b;
    } else {
      assert (a + b)[1..] == a[1..] + b;
      BitsConcat(a[1..], b);
    }
  }

  /** A checksum can be continued: the result over a, used as seed, gives the result over a + b. */
  lemma Chaining(seed: word, a: seq<byte>, b: seq<byte>)
    ensures Reference(Reference(seed, a), b) == Reference(seed, a + b)
  {
    BitsConcat(a, b);
    SerialConcat(!seed, Bits(a), Bits(b));
    NotNot(Serial(Not(seed), Bits(a)));
  }

  lemma NotNot(w: word)
    ensures Not(Not(w)) == w
  {
  }

  lemma NotInjective(a: word, b: word)
    requires Not(a) == Not(b)
    ensures a == b
  {
  }

  lemma {:induction false} SerialInjective(r: word, q: word, bits: seq<bool>)
    requires Serial(r, bits) == Serial(q, bits)
    ensures r == q
    decreases |bits|
  {
    if bits != [] {
      var b := BitWord(bits[0]);
      SerialInjective(Shift(Xor(r, b)), Shift(Xor(q, b)), bits[1..]);
      ShiftInjective(Xor(r, b), Xor(q, b));
      XorCancel(r, b);
      XorCancel(q, b);
    }
  }

  ghost predicate AgreeOutside<T>(a: seq<T>, b: seq<T>, i: nat, n: nat) {
    |a| == |b| && forall k :: 0 <= k < |a| && !(i <= k < i + n) ==> a[k] == b[k]
  }

  /** Every error burst of at most 32 consecutive bits changes the register. */
  lemma BitBurst(r: word, a: seq<bool>, b: seq<bool>, i: nat)
    requires AgreeOutside(a, b, i, 32) && a != b
    ensures Serial(r, a) != Serial(r, b)
  {
    assert i < |a|;
    var j := if i + 32 <= |a| then i + 32 else |a|;
    var p, u, v, s := a[..i], a[i..j], b[i..j], a[j..];
    assert a == p + (u + s) && b == p + (v + s);
    SerialConcat(r, p, u + s);
    SerialConcat(r, p, v + s);
    var q := Serial(r, p);
    SerialConcat(q, u, s);
    SerialConcat(q, v, s);
    if Serial(r, a) == Serial(r, b) {
      SerialInjective(Serial(q, u), Serial(q, v), s);
      WindowInjective(q, u, v);
      assert false;
    }
  }

  lemma WindowInjective(q: word, u: seq<bool>, v: seq<bool>)
    requires |u| == |v| <= 32 && Serial(q, u) == Serial(q, v)
    ensures u == v
  {
    SerialWord(q, u);
    SerialWord(q, v);
    ShiftNInjective(Xor(q, Word(u)), Xor(q, Word(v)), |u|);
    XorComm(q, Word(u));
    XorComm(q, Word(v));
    XorCancel(Word(u), q);
    XorCancel(Word(v), q);
    WordInjective(u, v);
  }

  lemma {:induction false} BitsInjective(a: seq<byte>, b: seq<byte>)
    requires Bits(a) == Bits(b)
    ensures a == b
    decreases |a|
  {
    if a != [] {
      assert Bits(a)[..8] == ByteBits(a[0]) && Bits(b)[..8] == ByteBits(b[0]);
      assert Bits(a)[8..] == Bits(a[1..]) && Bits(b)[8..] == Bits(b[1..]);
      ByteWord(a[0]);
      ByteWord(b[0]);
      BitsInjective(a[1..], b[1..]);
      assert a == [a[0]] + a[1..] && b == [b[0]] + b[1..];
    }
  }

  /** Two messages of equal length whose bits differ only inside 32 consecutive positions
      never have the same checksum, wherever the window starts and whatever the seed. */
  lemma BurstDetected(seed: word, a: seq<byte>, b: seq<byte>, i: nat)
    requires AgreeOutside(Bits(a), Bits(b), i, 32) && a != b
    ensures Reference(seed, a) != Reference(seed, b)
  {
    if Bits(a) == Bits(b) {
      BitsInjective(a, b);
    }
    BitBurst(Not(seed), Bits(a), Bits(b), i);
    if Reference(seed, a) == Reference(seed, b) {
      NotInjective(Serial(Not(seed), Bits(a)), Serial(Not(seed), Bits(b)));
    }
  }

  lemma SharedEnds<T>(p: seq<T>, u: seq<T>, v: seq<T>, s: seq<T>)
    requires |u| == |v| <= 32
    ensures AgreeOutside(p + (u + s), p + (v + s), |p|, 32)
  {
  }

  /** Four consecutive bytes are such a window. */
  lemma ByteBurstDetected(seed: word, a: seq<byte>, b: seq<byte>, i: nat)
    requires AgreeOutside(a, b, i, 4) && a != b
    ensures Reference(seed, a) != Reference(seed, b)
  {
    var j := if i + 4 <= |a| then i + 4 else |a|;
    var p, u, v, s := a[..i], a[i..j], b[i..j], a[j..];
    assert a == p + (u + s) && b == p + (v + s);
    BitsConcat(p, u + s);
    BitsConcat(p, v + s);
    BitsConcat(u, s);
    BitsConcat(v, s);
    SharedEnds(Bits(p), Bits(u), Bits(v), Bits(s));
    BurstDetected(seed, a, b, 8 * i);
  }

  lemma ByteStep(r: word, b: byte)
    ensures Serial(r, ByteBits(b)) == ShiftN(Xor(r, b as word), 8)
  {
    ByteWord(b);
    SerialWord(r, ByteBits(b));
  }

  /** How the difference of two registers moves when one is fed e and the other zeros. */
  function Difference(d: word, e: seq<byte>): word
    decreases |e|
  {
    if e == [] then d else Difference(ShiftN(Xor(d, e[0] as word), 8), e[1..])
  }

  lemma {:induction false} DifferenceMoves(q: word, d: word, e: seq<byte>, z: seq<byte>)
    requires |e| == |z| && forall k :: 0 <= k < |z| ==> z[k] == 0
    ensures Serial(Xor(q, d), Bits(e)) == Xor(Serial(q, Bits(z)), Difference(d, e))
    decreases |e|
  {
    if e != [] {
      var r := Xor(q, d);
      SerialConcat(r, ByteBits(e[0]), Bits(e[1..]));
      SerialConcat(q, ByteBits(0), Bits(z[1..]));
      ByteStep(r, e[0]);
      ByteStep(q, 0);
      XorZero(q);
      XorAssoc(q, d, e[0] as word);
      ShiftNLinear(q, Xor(d, e[0] as word), 8);
      DifferenceMoves(ShiftN(q, 8), ShiftN(Xor(d, e[0] as word), 8), e[1..], z[1..]);
    }
  }

  lemma PolynomialShift()
    ensures ShiftN(0x41, 8) == 0x01DB_7106
  {
    assert Shift(0x41) == 0xEDB8_8300 && Shift(0xEDB8_8300) == 0x76DC_4180;
    assert Shift(0x76DC_4180) == 0x3B6E_20C0 && Shift(0x3B6E_20C0) == 0x1DB7_1060;
    assert Shift(0x1DB7_1060) == 0x0EDB_8830 && Shift(0x0EDB_8830) == 0x076D_C418;
    assert Shift(0x076D_C418) == 0x03B6_E20C && Shift(0x03B6_E20C) == 0x01DB_7106;
    assert ShiftN(0x41, 8) == ShiftN(0x76DC_4180, 6) == ShiftN(0x1DB7_1060, 4);
    assert ShiftN(0x1DB7_1060, 4) == ShiftN(0x076D_C418, 2) == ShiftN(0x01DB_7106, 0);
  }

  lemma PolynomialVanishes()
    ensures Difference(0, [0x41, 0x06, 0x71, 0xDB, 0x01]) == 0
  {
    var e: seq<byte> := [0x41, 0x06, 0x71, 0xDB, 0x01];
    PolynomialShift();
    ShiftHigh(0x01DB_7100);
    ShiftHigh(0x0001_DB00);
    ShiftHigh(0x0000_0100);
    ShiftHigh(0);
    assert Difference(0, e) == Difference(0x01DB_7106, e[1..]);
    assert Difference(0x01DB_7106, e[1..]) == Difference(0x0001_DB71, e[1..][1..]);
    assert Difference(0x0001_DB71, e[2..]) == Difference(0x0000_01DB, e[2..][1..]);
    assert Difference(0x0000_01DB, e[3..]) == Difference(1, e[3..][1..]);
    assert Difference(1, e[4..]) == Difference(0, e[4..][1..]);
    assert e[1..][1..] == e[2..] && e[2..][1..] == e[3..] && e[3..][1..] == e[4..] && e[4..][1..] == [];
  }

  /** The bound is sharp: the 33 bits of the polynomial itself, in five bytes, go unseen. */
  lemma FiveBytesUndetected(seed: word)
    ensures Reference(seed, [0x41, 0x06, 0x71, 0xDB, 0x01]) == Reference(seed, [0, 0, 0, 0, 0])
  {
    PolynomialVanishes();
    DifferenceMoves(Not(seed), 0, [0x41, 0x06, 0x71, 0xDB, 0x01], [0, 0, 0, 0, 0]);
    XorZero(Not(seed));
    XorZero(Serial(Not(seed), Bits([0, 0, 0, 0, 0])));
  }

  // ------------------------------------------------------ what the two complements do

  /** The bytes of a word, lowest first: how a checksum is stored. */
  function WordBytes(w: word): (s: seq<byte>)
    ensures |s| == 4
  {
    [(w & 0xFF) as byte, ((w >> 8) & 0xFF) as byte, ((w >> 16) & 0xFF) as byte, (w >> 24) as byte]
  }

  /** Four bytes fed to a register that already holds their complement leave the same register always. */
  lemma OwnBytesCancel(q: word)
    ensures Serial(q, Bits(WordBytes(q ^ 0xFFFF_FFFF))) == ShiftN(0xFFFF_FFFF, 32)
  {
    var w := q ^ 0xFFFF_FFFF;
    var s := WordBytes(w);
    BitsOfFour(s);
    WordOfFour(s, w);
    SerialWord(q, Bits(s));
    assert Xor(q, w) == 0xFFFF_FFFF;
  }

  lemma BitsOfFour(s: seq<byte>)
    requires |s| == 4
    ensures Bits(s) == ByteBits(s[0]) + (ByteBits(s[1]) + (ByteBits(s[2]) + ByteBits(s[3])))
  {
    var t, u, v := s[1..], s[2..], s[3..];
    assert t[1..] == u && u[1..] == v && v[1..] == [];
    assert Bits(v) == ByteBits(v[0]) + Bits([]) == ByteBits(s[3]);
    assert Bits(u) == ByteBits(s[2]) + Bits(v);
    assert Bits(t) == ByteBits(s[1]) + Bits(u);
    assert Bits(s) == ByteBits(s[0]) + Bits(t);
  }

  function Up(w: word): word {
    w << 8
  }

  /** One byte in front of other bits. */
  lemma WordFront(b: byte, rest: seq<bool>, s: seq<bool>)
    requires s == ByteBits(b) + rest
    ensures Word(s) == Xor(b as word, Up(Word(rest)))
  {
    assert s[8..] == rest && s[0..] == s;
    var w8, w7, w6, w5, w4 := Word(s[8..]), Word(s[7..]), Word(s[6..]), Word(s[5..]), Word(s[4..]);
    var w3, w2, w1 := Word(s[3..]), Word(s[2..]), Word(s[1..]);
    EightFrom(s);
    FrontValue(b, w8, w7, w6, w5, w4, w3, w2, w1);
  }

  lemma EightFrom(s: seq<bool>)
    requires |s| >= 8
    ensures forall k :: 0 <= k < 8 ==> Word(s[k..]) == Xor(BitWord(s[k]), Double(Word(s[k + 1..])))
  {
    forall k | 0 <= k < 8
      ensures Word(s[k..]) == Xor(BitWord(s[k]), Double(Word(s[k + 1..])))
    {
      WordFrom(s, k);
    }
  }

  lemma FrontValue(b: byte, w8: word, w7: word, w6: word, w5: word, w4: word, w3: word, w2: word, w1: word)
    requires w7 == Xor(BitWord(b & 128 != 0), Double(w8))
    requires w6 == Xor(BitWord(b & 64 != 0), Double(w7)) && w5 == Xor(BitWord(b & 32 != 0), Double(w6))
    requires w4 == Xor(BitWord(b & 16 != 0), Double(w5)) && w3 == Xor(BitWord(b & 8 != 0), Double(w4))
    requires w2 == Xor(BitWord(b & 4 != 0), Double(w3)) && w1 == Xor(BitWord(b & 2 != 0), Double(w2))
    ensures Xor(BitWord(b & 1 != 0), Double(w1)) == Xor(b as word, Up(w8))
  {
  }

  lemma WordOfParts(a: byte, b: byte, c: byte, d: byte, v0: word, v1: word, v2: word, v3: word)
    requires v3 == d as word && v2 == Xor(c as word, Up(v3)) && v1 == Xor(b as word, Up(v2)) && v0 == Xor(a as word, Up(v1))
    ensures Word(ByteBits(a) + (ByteBits(b) + (ByteBits(c) + ByteBits(d)))) == v0
  {
    var b3 := ByteBits(d);
    var b2 := ByteBits(c) + b3;
    var b1 := ByteBits(b) + b2;
    var b0 := ByteBits(a) + b1;
    ByteWord(d);
    WordFront(c, b3, b2);
    WordFront(b, b2, b1);
    WordFront(a, b1, b0);
  }

  lemma WordOfFour(s: seq<byte>, w: word)
    requires s == WordBytes(w)
    ensures Word(ByteBits(s[0]) + (ByteBits(s[1]) + (ByteBits(s[2]) + ByteBits(s[3])))) == w
  {
    var a, b, c, d := s[0], s[1], s[2], s[3];
    var v3 := d as word;
    var v2 := Xor(c as word, Up(v3));
    var v1 := Xor(b as word, Up(v2));
    var v0 := Xor(a as word, Up(v1));
    WordOfParts(a, b, c, d, v0, v1, v2, v3);
    FourBytes(w);
  }

  lemma FourBytes(w: word)
    ensures var s := WordBytes(w);
            Xor(s[0] as word, Up(Xor(s[1] as word, Up(Xor(s[2] as word, Up(s[3] as word)))))) == w
  {
  }

  lemma {:induction false} ShiftNAdd(r: word, m: nat, n: nat)
    ensures ShiftN(r, m + n) == ShiftN(ShiftN(r, m), n)
    decreases m
  {
    if m > 0 {
      ShiftNAdd(Shift(r), m - 1, n);
    }
  }

  lemma SecondByte()
    ensures ShiftN(0x2DFD_1072, 8) == 0xBE26_ED00
  {
    assert Shift(0x2DFD_1072) == 0x16FE_8839 && Shift(0x16FE_8839) == 0xE6C7_C73C;
    assert Shift(0xE6C7_C73C) == 0x7363_E39E && Shift(0x7363_E39E) == 0x39B1_F1CF;
    assert Shift(0x39B1_F1CF) == 0xF160_7BC7 && Shift(0xF160_7BC7) == 0x9508_BEC3;
    assert Shift(0x9508_BEC3) == 0xA73C_DC41 && Shift(0xA73C_DC41) == 0xBE26_ED00;
    assert ShiftN(0x2DFD_1072, 8) == ShiftN(0xE6C7_C73C, 6) == ShiftN(0x39B1_F1CF, 4);
    assert ShiftN(0x39B1_F1CF, 4) == ShiftN(0x9508_BEC3, 2) == ShiftN(0xBE26_ED00, 0);
  }

  lemma FourthByte()
    ensures ShiftN(0x00BE_26ED, 8) == 0xDEBB_20E3
  {
    assert Shift(0x00BE_26ED) == 0xEDE7_9056 && Shift(0xEDE7_9056) == 0x76F3_C82B;
    assert Shift(0x76F3_C82B) == 0xD6C1_6735 && Shift(0xD6C1_6735) == 0x86D8_30BA;
    assert Shift(0x86D8_30BA) == 0x436C_185D && Shift(0x436C_185D) == 0xCC0E_8F0E;
    assert Shift(0xCC0E_8F0E) == 0x6607_4787 && Shift(0x6607_4787) == 0xDEBB_20E3;
    assert ShiftN(0x00BE_26ED, 8) == ShiftN(0x76F3_C82B, 6) == ShiftN(0x86D8_30BA, 4);
    assert ShiftN(0x86D8_30BA, 4) == ShiftN(0xCC0E_8F0E, 2) == ShiftN(0xDEBB_20E3, 0);
  }

  lemma OnesShifted()
    ensures ShiftN(0xFFFF_FFFF, 8) == 0x2DFD_1072
    ensures ShiftN(0xFFFF_FFFF, 32) == 0xDEBB_20E3
  {
    ShiftNAdd(0xFFFF_FFFF, 8, 24);
    ShiftNAdd(0x2DFD_1072, 8, 16);
    ShiftNAdd(0xBE26_ED00, 8, 8);
    ShiftHigh(0xBE26_ED00);
    SecondByte();
    FourthByte();
  }

  /** A message followed by its own stored checksum always has the same checksum, the residue. */
  lemma Residue(seed: word, m: seq<byte>)
    ensures Reference(seed, m + WordBytes(Reference(seed, m))) == 0x2144_DF1C
  {
    var start, r := Not(seed), Reference(seed, m);
    var q := Serial(start, Bits(m));
    var s := WordBytes(r);
    BitsConcat(m, s);
    SerialConcat(start, Bits(m), Bits(s));
    ComplementOf(q, r);
    OwnBytesCancel(q);
    OnesShifted();
    ResidueOf(Serial(q, Bits(s)));
  }

  lemma ComplementOf(q: word, r: word)
    requires r == Not(q)
    ensures r == q ^ 0xFFFF_FFFF
  {
  }

  lemma ResidueOf(q: word)
    requires q == 0xDEBB_20E3
    ensures Not(q) == 0x2144_DF1C
  {
  }

  /** The checksum of one zero byte. */
  lemma ZeroByte()
    ensures Reference(0, [0]) == 0xD202_EF8D
  {
    OnesShifted();
    assert Bits([0]) == ByteBits(0) + [] == ByteBits(0);
    ByteStep(0xFFFF_FFFF, 0);
    assert Not(0) == 0xFFFF_FFFF && Not(0x2DFD_1072) == 0xD202_EF8D;
  }
}
