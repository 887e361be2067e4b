/** The DDR memory tests, run against a memory that may be wired and broken in any way:
    several addresses may reach one cell, and any bit of any cell may be stuck. */
module MemTest {
  import opened Options
  import opened Bits

  const WIDTH: nat := 64

  /** A 64-bit memory word, lowest bit first. */
  type Word = w: seq<bool> | |w| == WIDTH witness seq(WIDTH, _ => false)

  /** Per bit: the value it is stuck at, if any. */
  type Fault = f: seq<Option<bool>> | |f| == WIDTH witness seq(WIDTH, _ => None)

  predicate Sound(f: Fault) {
    forall k :: 0 <= k < WIDTH ==> f[k] == None
  }

  predicate BitOf(v: nat, k: nat) {
    (v / Pow2(k)) % 2 == 1
  }

  /** The word of an unsigned number, truncated to 64 bits. */
  function ToWord(v: nat): Word {
    seq(WIDTH, (k: nat) => BitOf(v, k))
  }

  function Not(w: Word): Word {
    seq(WIDTH, k requires 0 <= k < WIDTH => !w[k])
  }

  /** What a broken cell shows for the word last written to it. */
  function Seen(f: Fault, w: Word): Word {
    seq(WIDTH, k requires 0 <= k < WIDTH => if f[k].Some? then f[k].value else w[k])
  }

  class Memory {
    const cell: seq<nat>
    const faults: seq<Fault>
    const data: array<Word>

    ghost predicate Valid() {
      data.Length == |faults| && forall i :: 0 <= i < |cell| ==> cell[i] < data.Length
    }

    constructor (cell: seq<nat>, faults: seq<Fault>)
      requires forall i :: 0 <= i < |cell| ==> cell[i] < |faults|
      ensures Valid() && this.cell == cell && this.faults == faults && fresh(data)
    {
      this.cell, this.faults := cell, faults;
      data := new Word[|faults|](_ => ToWord(0));
    }

    function FaultOf(addr: nat): Fault
      requires Valid() && addr < |cell|
    {
      faults[cell[addr]]
    }

    method Write(addr: nat, w: Word)
      requires Valid() && addr < |cell|
      modifies data
      ensures data[..] == old(data[..])[cell[addr] := w]
    {
      data[cell[addr]] := w;
    }

    method Read(addr: nat) returns (w: Word)
      requires Valid() && addr < |cell|
      ensures w == Seen(FaultOf(addr), data[cell[addr]])
    {
      w := Seen(faults[cell[addr]], data[cell[addr]]);
    }

    /** The first n addresses reach n different cells and none of their bits is stuck. */
    ghost predicate Healthy(n: nat)
      requires Valid() && n <= |cell|
    {
      && (forall i, j :: 0 <= i < j < n ==> cell[i] != cell[j])
      && (forall i :: 0 <= i < n ==> Sound(FaultOf(i)))
    }
  }

  // ------------------------------------------------------------ words and stuck bits

  lemma {:induction false} BitsInjective(a: nat, b: nat, n: nat)
    requires a < Pow2(n) && b < Pow2(n)
    requires forall k :: 0 <= k < n ==> (a / Pow2(k)) % 2 == (b / Pow2(k)) % 2
    ensures a == b
    decreases n
  {
    if n > 0 {
      assert (a / Pow2(0)) % 2 == (b / Pow2(0)) % 2;
      forall k | 0 <= k < n - 1
        ensures ((a / 2) / Pow2(k)) % 2 == ((b / 2) / Pow2(k)) % 2
      {
        ModDouble(a, Pow2(k));
        ModDouble(b, Pow2(k));
        assert (a / Pow2(k + 1)) % 2 == (b / Pow2(k + 1)) % 2;
      }
      BitsInjective(a / 2, b / 2, n - 1);
    }
  }

  lemma ToWordInjective(a: nat, b: nat)
    requires a < U64 && b < U64 && ToWord(a) == ToWord(b)
    ensures a == b
  {
    Pow2Sizes();
    forall k | 0 <= k < 64
      ensures (a / Pow2(k)) % 2 == (b / Pow2(k)) % 2
    {
      assert ToWord(a)[k] == ToWord(b)[k];
    }
    BitsInjective(a, b, 64);
  }

  lemma SoundSeen(f: Fault, w: Word)
    requires Sound(f)
    ensures Seen(f, w) == w
  {
  }

  /** A cell that can show a word and its complement has no stuck bit. */
  lemma BothPolarities(f: Fault, u: Word, v: Word, w: Word)
    requires Seen(f, u) == w && Seen(f, v) == Not(w)
    ensures Sound(f)
  {
    forall k | 0 <= k < WIDTH
      ensures f[k] == None
    {
      assert Seen(f, u)[k] == w[k] && Seen(f, v)[k] == !w[k];
    }
  }

  // ----------------------------------------------------------------- data bus test

  lemma {:induction false} OneHotBit(k: nat, j: nat)
    ensures (Pow2(k) / Pow2(j)) % 2 == 1 <==> j == k
    decreases j
  {
    if j > 0 {
      ModDouble(Pow2(k), Pow2(j - 1));
      if k > 0 {
        OneHotBit(k - 1, j - 1);
      } else {
        assert (1 / 2) / Pow2(j - 1) == 0;
      }
    }
  }

  lemma OneHot(k: nat)
    requires k < WIDTH
    ensures forall j :: 0 <= j < WIDTH ==> (ToWord(Pow2(k))[j] <==> j == k)
  {
    forall j | 0 <= j < WIDTH
      ensures ToWord(Pow2(k))[j] <==> j == k
    {
      OneHotBit(k, j);
    }
  }

  /** A cell with this fault does not give the one-bit pattern back. */
  predicate Fails(f: Fault, k: nat) {
    Seen(f, ToWord(Pow2(k))) != ToWord(Pow2(k))
  }

  lemma WalkingOnes(f: Fault)
    requires forall k :: 0 <= k < WIDTH ==> !Fails(f, k)
    ensures Sound(f)
  {
    forall j | 0 <= j < WIDTH
      ensures f[j] == None
    {
      var other := if j == 0 then 1 else 0;
      OneHot(j);
      OneHot(other);
      assert !Fails(f, j) && !Fails(f, other);
      assert Seen(f, ToWord(Pow2(j)))[j] && !Seen(f, ToWord(Pow2(other)))[j];
    }
  }

  /** Walking ones at one address: 0 is returned exactly when no bit of its cell is stuck, and
      otherwise the lowest one-bit pattern that does not come back. */
  method TestDataBus(m: Memory, addr: nat) returns (result: nat)
    requires m.Valid() && addr < |m.cell|
    modifies m.data
    ensures result == 0 <==> Sound(m.FaultOf(addr))
    ensures result != 0 ==> exists k :: 0 <= k < WIDTH && result == Pow2(k) && Fails(m.FaultOf(addr), k)
                                        && forall j :: 0 <= j < k ==> !Fails(m.FaultOf(addr), j)
  {
    ghost var f := m.FaultOf(addr);
    result := 0;
    var pattern := 1;
    ghost var k := 0;
    while pattern != 0
      invariant 0 <= k <= WIDTH && pattern == (if k < WIDTH then Pow2(k) else 0) && result == 0
      invariant forall j :: 0 <= j < k ==> !Fails(f, j)
      decreases WIDTH - k
    {
      m.Write(addr, ToWord(pattern));
      var w := m.Read(addr);
      if w != ToWord(pattern) {
        result := pattern;
        assert Fails(f, k);
        if Sound(f) {
          SoundSeen(f, ToWord(pattern));
        }
        return;
      }
      NextPattern(k);
      pattern := Wrap(pattern * 2);
      k := k + 1;
    }
    WalkingOnes(f);
  }

  lemma NextPattern(k: nat)
    requires k < WIDTH
    ensures Wrap(Pow2(k) * 2) == if k + 1 < WIDTH then Pow2(k + 1) else 0
  {
    Pow2Sizes();
    if k + 1 < WIDTH {
      Pow2Monotone(k + 1, 64);
    }
  }

  // ------------------------------------------------------------------- device test

  function Pattern(i: nat): Word {
    ToWord(i + 1)
  }

  function AntiPattern(i: nat): Word {
    Not(Pattern(i))
  }

  ghost predicate LastOfCell(cell: seq<nat>, i: nat, n: nat) {
    i < n <= |cell| && forall j :: i < j < n ==> cell[j] != cell[i]
  }

  ghost predicate FirstOfCell(cell: seq<nat>, i: nat) {
    i < |cell| && forall j :: 0 <= j < i ==> cell[j] != cell[i]
  }

  /** The last of the first n addresses to reach a cell left its word there. */
  ghost predicate Holds(cell: seq<nat>, data: seq<Word>, n: nat, w: nat -> Word) {
    n <= |cell| && forall i: nat :: LastOfCell(cell, i, n) ==> cell[i] < |data| && data[cell[i]] == w(i)
  }

  /** us are words that the first |us| addresses showed as their expected words. */
  ghost predicate AllShow(m: Memory, us: seq<Word>, w: nat -> Word)
    requires m.Valid()
  {
    |us| <= |m.cell| && forall i :: 0 <= i < |us| ==> Seen(m.FaultOf(i), us[i]) == w(i)
  }

  /** The first address of a cell was found to hold what the last one had written. */
  ghost predicate SweptInOrder(cell: seq<nat>, us: seq<Word>, n: nat, w: nat -> Word) {
    |us| <= |cell| && forall i: nat, j: nat ::
      (i < |us| && FirstOfCell(cell, i) && LastOfCell(cell, j, n) && cell[j] == cell[i]) ==> us[i] == w(j)
  }

  /** Cells whose first address is still to come are as before. */
  ghost predicate Untouched(cell: seq<nat>, before: seq<Word>, data: seq<Word>, n: nat) {
    |before| == |data| && forall i: nat ::
      n <= i < |cell| && FirstOfCell(cell, i) ==> cell[i] < |data| && data[cell[i]] == before[cell[i]]
  }

  lemma SweepMore(cell: seq<nat>, us: seq<Word>, before: seq<Word>, data: seq<Word>, n: nat, w: nat -> Word)
    requires |us| < n <= |cell| && cell[|us|] < |data|
    requires Holds(cell, before, n, w) && Untouched(cell, before, data, |us|) && SweptInOrder(cell, us, n, w)
    ensures SweptInOrder(cell, us + [data[cell[|us|]]], n, w)
  {
  }

  lemma UntouchedMore(cell: seq<nat>, before: seq<Word>, data: seq<Word>, n: nat, w: Word)
    requires n < |cell| && cell[n] < |data| && Untouched(cell, before, data, n)
    ensures Untouched(cell, before, data[cell[n] := w], n + 1)
  {
  }

  lemma HoldsMore(cell: seq<nat>, data: seq<Word>, n: nat, w: nat -> Word)
    requires n < |cell| && cell[n] < |data| && Holds(cell, data, n, w)
    ensures Holds(cell, data[cell[n] := w(n)], n + 1, w)
  {
    var data' := data[cell[n] := w(n)];
    forall i: nat | LastOfCell(cell, i, n + 1)
      ensures cell[i] < |data'| && data'[cell[i]] == w(i)
    {
      if i < n {
        assert LastOfCell(cell, i, n);
      }
    }
  }

  method Fill(m: Memory, numWords: nat)
    requires m.Valid() && numWords <= |m.cell|
    modifies m.data
    ensures Holds(m.cell, m.data[..], numWords, Pattern)
  {
    var pattern, offset := 1, 0;
    while offset < numWords
      invariant 0 <= offset <= numWords && pattern == offset + 1
      invariant Holds(m.cell, m.data[..], offset, Pattern)
    {
      HoldsMore(m.cell, m.data[..], offset, Pattern);
      m.Write(offset, ToWord(pattern));
      pattern, offset := pattern + 1, offset + 1;
    }
  }

  /** The first pass up to offset: us is what it has seen, p what it expects, q what it leaves. */
  ghost predicate Inverting(m: Memory, n: nat, before: seq<Word>, us: seq<Word>, data: seq<Word>, p: nat -> Word, q: nat -> Word)
    requires m.Valid()
  {
    && |us| <= n <= |m.cell| && |data| == m.data.Length
    && Holds(m.cell, before, n, p) && Untouched(m.cell, before, data, |us|)
    && Holds(m.cell, data, |us|, q)
    && AllShow(m, us, p) && SweptInOrder(m.cell, us, n, p)
  }

  lemma ShowMore(m: Memory, us: seq<Word>, u: Word, w: nat -> Word)
    requires m.Valid() && AllShow(m, us, w) && |us| < |m.cell| && Seen(m.FaultOf(|us|), u) == w(|us|)
    ensures AllShow(m, us + [u], w)
  {
    forall i | 0 <= i < |us| + 1
      ensures Seen(m.FaultOf(i), (us + [u])[i]) == w(i)
    {
      assert (us + [u])[i] == if i < |us| then us[i] else u;
    }
  }

  lemma InvertingMore(m: Memory, n: nat, before: seq<Word>, us: seq<Word>, data: seq<Word>, p: nat -> Word, q: nat -> Word)
    requires m.Valid() && Inverting(m, n, before, us, data, p, q) && |us| < n
    requires Seen(m.FaultOf(|us|), data[m.cell[|us|]]) == p(|us|)
    ensures Inverting(m, n, before, us + [data[m.cell[|us|]]], data[m.cell[|us|] := q(|us|)], p, q)
  {
    ShowMore(m, us, data[m.cell[|us|]], p);
    SweepMore(m.cell, us, before, data, n, p);
    HoldsMore(m.cell, data, |us|, q);
    UntouchedMore(m.cell, before, data, |us|, q(|us|));
  }

  /** What a healthy memory shows is what its only writer left. */
  lemma FirstLookIsPattern(m: Memory, n: nat, before: seq<Word>, us: seq<Word>, data: seq<Word>, p: nat -> Word, q: nat -> Word)
    requires m.Valid() && Inverting(m, n, before, us, data, p, q) && |us| < n && m.Healthy(n)
    ensures Seen(m.FaultOf(|us|), data[m.cell[|us|]]) == p(|us|)
  {
    assert FirstOfCell(m.cell, |us|) && LastOfCell(m.cell, |us|, n);
    SoundSeen(m.FaultOf(|us|), data[m.cell[|us|]]);
  }

  /** The last of the first n addresses to reach cell c, or -1. */
  ghost function LastWriter(cell: seq<nat>, c: nat, n: nat): (j: int)
    requires n <= |cell|
    ensures -1 <= j < n && (j >= 0 ==> cell[j] == c) && forall k :: j < k < n ==> cell[k] != c
  {
    if n == 0 then -1 else if cell[n - 1] == c then n - 1 else LastWriter(cell, c, n - 1)
  }

  /** The complement of an address's number. */
  function Inverse(j: nat): Word {
    Not(ToWord(j + 1))
  }

  /** What the cell of address i holds when the first pass gets there: the complement that an earlier
      address has left, or else the number that the last address wrote. */
  ghost function FirstWord(cell: seq<nat>, n: nat, i: nat): Word
    requires i < n <= |cell|
  {
    var j := LastWriter(cell, cell[i], i);
    if j >= 0 then Inverse(j) else ToWord(LastWriter(cell, cell[i], n) + 1)
  }

  /** What the first pass reads there. */
  ghost function FirstRead(m: Memory, n: nat, i: nat): Word
    requires m.Valid() && i < n <= |m.cell|
  {
    Seen(m.FaultOf(i), FirstWord(m.cell, n, i))
  }

  /** What the second pass reads there. */
  ghost function SecondRead(m: Memory, n: nat, i: nat): Word
    requires m.Valid() && i < n <= |m.cell|
  {
    Seen(m.FaultOf(i), Inverse(LastWriter(m.cell, m.cell[i], n)))
  }

  /** The first address that does not read as i + 1 in the first pass, or as its complement in the
      second. */
  ghost predicate MisreadFirst(m: Memory, n: nat, i: nat)
    requires m.Valid() && n <= |m.cell|
  {
    i < n && FirstRead(m, n, i) != ToWord(i + 1) && forall j: nat :: j < i ==> FirstRead(m, n, j) == ToWord(j + 1)
  }

  ghost predicate MisreadSecond(m: Memory, n: nat, i: nat)
    requires m.Valid() && n <= |m.cell|
  {
    i < n && SecondRead(m, n, i) != Inverse(i) && forall j: nat :: j < i ==> SecondRead(m, n, j) == Inverse(j)
  }

  lemma EarlierLeft(cell: seq<nat>, data: seq<Word>, i: nat, j: nat)
    requires j < i < |cell| && cell[j] == cell[i] && Holds(cell, data, i, AntiPattern) && forall k :: j < k < i ==> cell[k] != cell[i]
    ensures cell[i] < |data| && data[cell[i]] == Inverse(j)
  {
    assert LastOfCell(cell, j, i);
  }

  lemma StillThere(cell: seq<nat>, before: seq<Word>, data: seq<Word>, n: nat, i: nat, j: nat)
    requires i <= j < n <= |cell| && cell[j] == cell[i] && Holds(cell, before, n, Pattern) && Untouched(cell, before, data, i)
    requires (forall k :: 0 <= k < i ==> cell[k] != cell[i]) && forall k :: j < k < n ==> cell[k] != cell[i]
    ensures cell[i] < |data| && data[cell[i]] == ToWord(j + 1)
  {
    assert FirstOfCell(cell, i);
    assert LastOfCell(cell, j, n);
  }

  lemma HoldsEither(cell: seq<nat>, n: nat, before: seq<Word>, data: seq<Word>, i: nat, j: int, last: int)
    requires i < n <= |cell| && Holds(cell, before, n, Pattern) && Untouched(cell, before, data, i) && Holds(cell, data, i, AntiPattern)
    requires -1 <= j < i && (j >= 0 ==> cell[j] == cell[i]) && forall k :: j < k < i ==> cell[k] != cell[i]
    requires i <= last < n && cell[last] == cell[i] && forall k :: last < k < n ==> cell[k] != cell[i]
    ensures cell[i] < |data| && data[cell[i]] == if j >= 0 then Inverse(j) else ToWord(last + 1)
  {
    if j >= 0 {
      EarlierLeft(cell, data, i, j);
    } else {
      StillThere(cell, before, data, n, i, last);
    }
  }

  lemma HoldsFirst(cell: seq<nat>, n: nat, before: seq<Word>, data: seq<Word>, i: nat)
    requires i < n <= |cell| && Holds(cell, before, n, Pattern) && Untouched(cell, before, data, i) && Holds(cell, data, i, AntiPattern)
    ensures cell[i] < |data| && data[cell[i]] == FirstWord(cell, n, i)
  {
    HoldsEither(cell, n, before, data, i, LastWriter(cell, cell[i], i), LastWriter(cell, cell[i], n));
  }

  lemma ReadsSecond(m: Memory, n: nat, data: seq<Word>, i: nat)
    requires m.Valid() && i < n <= |m.cell| && |data| == m.data.Length && Holds(m.cell, data, n, AntiPattern)
    ensures Seen(m.FaultOf(i), data[m.cell[i]]) == SecondRead(m, n, i)
  {
    assert LastOfCell(m.cell, LastWriter(m.cell, m.cell[i], n), n);
  }

  /** First pass: check the pattern and leave its complement. */
  method CheckAndInvert(m: Memory, numWords: nat) returns (result: Option<nat>, ghost us: seq<Word>)
    requires m.Valid() && numWords <= |m.cell| && Holds(m.cell, m.data[..], numWords, Pattern)
    modifies m.data
    ensures result.Some? ==> !m.Healthy(numWords) && MisreadFirst(m, numWords, result.value)
    ensures result.None? ==> forall j: nat :: j < numWords ==> FirstRead(m, numWords, j) == ToWord(j + 1)
    ensures result.None? ==> Holds(m.cell, m.data[..], numWords, AntiPattern)
    ensures result.None? ==> |us| == numWords && AllShow(m, us, Pattern)
    ensures result.None? ==> SweptInOrder(m.cell, us, numWords, Pattern)
  {
    result, us := None, [];
    ghost var before := m.data[..];
    var pattern, offset: nat := 1, 0;
    while offset < numWords
      invariant |us| == offset <= numWords && pattern == offset + 1 && result.None?
      invariant Inverting(m, numWords, before, us, m.data[..], Pattern, AntiPattern)
      invariant forall j: nat :: j < offset ==> FirstRead(m, numWords, j) == ToWord(j + 1)
    {
      var w := m.Read(offset);
      ghost var data := m.data[..];
      HoldsFirst(m.cell, numWords, before, data, offset);
      if w != ToWord(pattern) {
        if m.Healthy(numWords) {
          FirstLookIsPattern(m, numWords, before, us, data, Pattern, AntiPattern);
        }
        return Some(offset), us;
      }
      InvertingMore(m, numWords, before, us, data, Pattern, AntiPattern);
      m.Write(offset, Not(ToWord(pattern)));
      us := us + [data[m.cell[offset]]];
      pattern, offset := pattern + 1, offset + 1;
    }
  }

  /** Second pass: check the complement. */
  method CheckInverted(m: Memory, numWords: nat) returns (result: Option<nat>, ghost vs: seq<Word>)
    requires m.Valid() && numWords <= |m.cell| && Holds(m.cell, m.data[..], numWords, AntiPattern)
    ensures result.Some? ==> !m.Healthy(numWords) && MisreadSecond(m, numWords, result.value)
    ensures result.None? ==> |vs| == numWords && AllShow(m, vs, AntiPattern)
  {
    result, vs := None, [];
    var pattern, offset := 1, 0;
    while offset < numWords
      invariant 0 <= offset <= numWords && pattern == offset + 1 && result.None?
      invariant |vs| == offset && AllShow(m, vs, AntiPattern)
      invariant forall j: nat :: j < offset ==> SecondRead(m, numWords, j) == Inverse(j)
    {
      var w := m.Read(offset);
      ReadsSecond(m, numWords, m.data[..], offset);
      if w != Not(ToWord(pattern)) {
        if m.Healthy(numWords) {
          assert LastOfCell(m.cell, offset, numWords);
          SoundSeen(m.FaultOf(offset), m.data[m.cell[offset]]);
        }
        result := Some(offset);
        return;
      }
      ShowMore(m, vs, m.data[m.cell[offset]], AntiPattern);
      vs := vs + [m.data[m.cell[offset]]];
      pattern, offset := pattern + 1, offset + 1;
    }
  }

  lemma FirstAlias(cell: seq<nat>, i: nat) returns (a: nat)
    requires i < |cell|
    ensures a <= i && cell[a] == cell[i] && FirstOfCell(cell, a)
    decreases i
  {
    if FirstOfCell(cell, i) {
      a := i;
    } else {
      var j :| 0 <= j < i && cell[j] == cell[i];
      a := FirstAlias(cell, j);
    }
  }

  lemma LastAlias(cell: seq<nat>, j: nat, n: nat) returns (b: nat)
    requires j < n <= |cell|
    ensures j <= b < n && cell[b] == cell[j] && LastOfCell(cell, b, n)
    decreases n - j
  {
    if LastOfCell(cell, j, n) {
      b := j;
    } else {
      var k :| j < k < n && cell[k] == cell[j];
      b := LastAlias(cell, k, n);
    }
  }

  lemma PassedIsHealthy(m: Memory, n: nat, us: seq<Word>, vs: seq<Word>)
    requires m.Valid() && n <= |m.cell| && n < U64 && |us| == |vs| == n
    requires AllShow(m, us, Pattern) && AllShow(m, vs, AntiPattern) && SweptInOrder(m.cell, us, n, Pattern)
    ensures m.Healthy(n)
  {
    forall i | 0 <= i < n
      ensures Sound(m.FaultOf(i))
    {
      BothPolarities(m.FaultOf(i), us[i], vs[i], Pattern(i));
    }
    forall i, j | 0 <= i < j < n
      ensures m.cell[i] != m.cell[j]
    {
      if m.cell[i] == m.cell[j] {
        var a := FirstAlias(m.cell, i);
        var b := LastAlias(m.cell, j, n);
        SoundSeen(m.FaultOf(a), us[a]);
        assert us[a] == Pattern(b);
        ToWordInjective(a + 1, b + 1);
        assert false;
      }
    }
  }

  /** A full run finds nothing exactly when every address reaches a cell of its own and no bit
      of these cells is stuck, and otherwise the first address that misreads: in the first pass, or if
      that finds none in the second. */
  method TestDevice(m: Memory, numWords: nat) returns (result: Option<nat>)
    requires m.Valid() && numWords <= |m.cell| && numWords < U64
    modifies m.data
    ensures result.None? <==> m.Healthy(numWords)
    ensures result.Some? ==>
              MisreadFirst(m, numWords, result.value)
              || ((forall j: nat :: j < numWords ==> FirstRead(m, numWords, j) == ToWord(j + 1)) && MisreadSecond(m, numWords, result.value))
  {
    Fill(m, numWords);
    ghost var us, vs;
    result, us := CheckAndInvert(m, numWords);
    if result.None? {
      result, vs := CheckInverted(m, numWords);
      if result.None? {
        PassedIsHealthy(m, numWords, us, vs);
      }
    }
  }

  // --------------------------------------------------------------- address bus test

  const PATTERN: Word := ToWord(0xAAAA_AAAA_AAAA_AAAA)
  const ANTIPATTERN: Word := ToWord(0x5555_5555_5555_5555)

  /** The addresses the test visits: 0 and then 1, 2, 4, .. */
  function Visited(k: nat): nat {
    if k == 0 then 0 else Pow2(k - 1)
  }

  /** How many powers of two the loops visit: the mask is followed while its bits are set. */
  function Steps(numWords: nat): nat
    requires numWords >= 1
  {
    TrailingOnes(numWords - 1)
  }

  ghost predicate InRange(cell: seq<nat>, t: nat) {
    forall i: nat :: i <= t ==> Visited(i) < |cell|
  }

  /** No two visited addresses share a cell. */
  ghost predicate Distinct(cell: seq<nat>, t: nat)
    requires InRange(cell, t)
  {
    forall i: nat, j: nat :: i < j <= t ==> cell[Visited(i)] != cell[Visited(j)]
  }

  ghost predicate SoundAt(m: Memory, t: nat)
    requires m.Valid() && InRange(m.cell, t)
  {
    forall i: nat :: i <= t ==> Sound(m.FaultOf(Visited(i)))
  }

  /** What visited address i shows if every visited cell holds the pattern but that of address k,
      which holds the complement. */
  function ShownAt(m: Memory, t: nat, i: nat, k: nat): Word
    requires m.Valid() && InRange(m.cell, t) && i <= t && k <= t
  {
    Seen(m.FaultOf(Visited(i)), if m.cell[Visited(i)] == m.cell[Visited(k)] then ANTIPATTERN else PATTERN)
  }

  /** Address i does not give away that address k is being tested. */
  ghost predicate Silent(m: Memory, t: nat, i: nat, k: nat)
    requires m.Valid() && InRange(m.cell, t) && i <= t && k <= t
  {
    i == k || ShownAt(m, t, i, k) == PATTERN
  }

  /** No visited address gives away any tested address from lo up to but not including hi. */
  ghost predicate SilentFor(m: Memory, t: nat, lo: nat, hi: nat)
    requires m.Valid() && InRange(m.cell, t)
  {
    forall i: nat, k: nat :: i <= t && lo <= k < hi && k <= t ==> Silent(m, t, i, k)
  }

  /** The address that the walks report: the first to give away address 0, or if none does the first
      that is given away. */
  ghost predicate Reported(m: Memory, t: nat, addr: nat)
    requires m.Valid() && InRange(m.cell, t)
  {
    exists k: nat :: 1 <= k <= t && addr == Visited(k)
      && if SilentFor(m, t, 0, 1) then SilentFor(m, t, 1, k) && !SilentFor(m, t, k, k + 1)
         else !Silent(m, t, k, 0) && forall i: nat :: i < k ==> Silent(m, t, i, 0)
  }

  /** Every stuck bit is stuck at its value in the pattern: the odd ones at 1 and the even ones at 0. */
  ghost predicate StuckAtPattern(f: Fault) {
    forall b :: 0 <= b < WIDTH && f[b].Some? ==> f[b].value == (b % 2 == 1)
  }

  ghost predicate AllStuck(f: Fault) {
    forall b :: 0 <= b < WIDTH ==> f[b].Some?
  }

  /** What the test cannot see: bits stuck at the pattern, and sharing a cell with no live bit. */
  ghost predicate Unnoticed(m: Memory, t: nat)
    requires m.Valid() && InRange(m.cell, t)
  {
    && (t > 0 ==> forall i: nat :: i <= t ==> StuckAtPattern(m.FaultOf(Visited(i))))
    && (forall i: nat, j: nat :: i < j <= t && m.cell[Visited(i)] == m.cell[Visited(j)] ==> AllStuck(m.FaultOf(Visited(i))))
  }

  lemma HalfSum(a: nat, b: nat, half: nat)
    requires a + b + 1 == 2 * half
    ensures a % 2 + b % 2 == 1 && a / 2 + b / 2 + 1 == half
  {
  }

  lemma {:induction false} ComplementBit(a: nat, b: nat, n: nat, k: nat)
    requires a + b + 1 == Pow2(n) && k < n
    ensures BitOf(a, k) <==> !BitOf(b, k)
    decreases k
  {
    HalfSum(a, b, Pow2(n - 1));
    if k == 0 {
      assert Pow2(0) == 1;
    } else {
      var half, half', w := a / 2, b / 2, Pow2(k - 1);
      ComplementBit(half, half', n - 1, k - 1);
      ModDouble(a, w);
      ModDouble(b, w);
    }
  }

  /** n pairs of bits, each a one above a zero. */
  function Alternating(n: nat): nat {
    if n == 0 then 0 else 2 + 4 * Alternating(n - 1)
  }

  lemma {:induction false} AlternatingSum(n: nat)
    ensures 3 * Alternating(n) == 2 * (Pow2(2 * n) - 1)
  {
    if n > 0 {
      AlternatingSum(n - 1);
      var k := 2 * n - 1;
      assert Pow2(2 * n) == 2 * Pow2(k) && Pow2(k) == 2 * Pow2(k - 1);
    }
  }

  lemma LowestBit(v: nat)
    ensures BitOf(v, 0) <==> v % 2 == 1
  {
    assert v / Pow2(0) == v;
  }

  lemma {:induction false} AlternatingBit(n: nat, k: nat)
    requires k < 2 * n
    ensures BitOf(Alternating(n), k) <==> k % 2 == 1
  {
    var w := Alternating(n - 1);
    var half := 1 + 2 * w;
    var v := 2 * half;
    assert Alternating(n) == v;
    if k == 0 {
      LowestBit(v);
    } else {
      HalfBit(v, half, k);
      if k == 1 {
        LowestBit(half);
      } else {
        HalfBit(half, w, k - 1);
        AlternatingBit(n - 1, k - 2);
        assert (k - 2) % 2 == k % 2;
      }
    }
  }

  lemma HalfBit(v: nat, half: nat, k: nat)
    requires k > 0 && half == v / 2
    ensures BitOf(v, k) == BitOf(half, k - 1)
  {
    ModDouble(v, Pow2(k - 1));
  }

  lemma PatternAlternates()
    ensures forall b :: 0 <= b < WIDTH ==> PATTERN[b] == (b % 2 == 1)
  {
    AlternatingSum(32);
    Pow2Sizes();
    forall b | 0 <= b < WIDTH
      ensures PATTERN[b] == (b % 2 == 1)
    {
      AlternatingBit(32, b);
    }
  }

  lemma StuckIff(f: Fault)
    ensures StuckAtPattern(f) <==> forall b :: 0 <= b < WIDTH && f[b].Some? ==> f[b].value == PATTERN[b]
  {
    PatternAlternates();
  }

  lemma PatternsOpposed()
    ensures forall b :: 0 <= b < WIDTH ==> ANTIPATTERN[b] == !PATTERN[b]
  {
    Pow2Sizes();
    forall b | 0 <= b < WIDTH
      ensures ANTIPATTERN[b] == !PATTERN[b]
    {
      ComplementBit(0x5555_5555_5555_5555, 0xAAAA_AAAA_AAAA_AAAA, 64, b);
    }
  }

  lemma SeenAsPattern(f: Fault)
    ensures Seen(f, PATTERN) == PATTERN <==> StuckAtPattern(f)
    ensures Seen(f, ANTIPATTERN) == PATTERN <==> StuckAtPattern(f) && AllStuck(f)
  {
    PatternsOpposed();
    StuckIff(f);
    if Seen(f, PATTERN) == PATTERN {
      assert forall b :: 0 <= b < WIDTH ==> Seen(f, PATTERN)[b] == PATTERN[b];
    }
    if Seen(f, ANTIPATTERN) == PATTERN {
      forall b | 0 <= b < WIDTH
        ensures f[b] == Some(PATTERN[b])
      {
        assert Seen(f, ANTIPATTERN)[b] == PATTERN[b];
      }
    }
    if StuckAtPattern(f) && AllStuck(f) {
      assert forall b :: 0 <= b < WIDTH ==> f[b].Some?;
      assert Seen(f, ANTIPATTERN) == PATTERN;
    }
  }

  lemma SilentIff(m: Memory, t: nat, i: nat, k: nat)
    requires m.Valid() && InRange(m.cell, t) && i <= t && k <= t && i != k
    ensures Silent(m, t, i, k) <==>
              && StuckAtPattern(m.FaultOf(Visited(i)))
              && (m.cell[Visited(i)] == m.cell[Visited(k)] ==> AllStuck(m.FaultOf(Visited(i))))
  {
    SeenAsPattern(m.FaultOf(Visited(i)));
  }

  /** All pairs are silent exactly for the faults the test cannot see. */
  lemma AllSilentIff(m: Memory, t: nat)
    requires m.Valid() && InRange(m.cell, t)
    ensures SilentFor(m, t, 0, t + 1) <==> Unnoticed(m, t)
  {
    forall i: nat, k: nat | i <= t && k <= t && i != k
      ensures Silent(m, t, i, k) <==>
                && StuckAtPattern(m.FaultOf(Visited(i)))
                && (m.cell[Visited(i)] == m.cell[Visited(k)] ==> AllStuck(m.FaultOf(Visited(i))))
    {
      SilentIff(m, t, i, k);
    }
    if SilentFor(m, t, 0, t + 1) && t > 0 {
      forall i: nat | i <= t
        ensures StuckAtPattern(m.FaultOf(Visited(i)))
      {
        var k := if i == 0 then 1 else 0;
        assert Silent(m, t, i, k);
      }
    }
  }

  /** The address is visited and shares its cell with another visited address. */
  ghost predicate Aliased(cell: seq<nat>, t: nat, addr: nat)
    requires InRange(cell, t)
  {
    exists k: nat, i: nat :: k <= t && i <= t && i != k && addr == Visited(k) && cell[Visited(i)] == cell[Visited(k)]
  }

  /** Without stuck bits only shared cells are noticed, and all of them. */
  lemma SoundNotices(m: Memory, t: nat)
    requires m.Valid() && InRange(m.cell, t) && SoundAt(m, t)
    ensures Unnoticed(m, t) <==> Distinct(m.cell, t)
    ensures forall addr: nat :: Reported(m, t, addr) ==> Aliased(m.cell, t, addr)
  {
    forall i: nat | i <= t
      ensures StuckAtPattern(m.FaultOf(Visited(i))) && !AllStuck(m.FaultOf(Visited(i)))
    {
      assert m.FaultOf(Visited(i))[0] == None;
    }
    forall i: nat, k: nat | i <= t && k <= t && i != k && !Silent(m, t, i, k)
      ensures m.cell[Visited(i)] == m.cell[Visited(k)]
    {
      SilentIff(m, t, i, k);
    }
    forall addr: nat | Reported(m, t, addr)
      ensures Aliased(m.cell, t, addr)
    {
      ReportedPair(m, t, addr);
    }
  }

  lemma OneGivesAway(m: Memory, t: nat, i: nat, k: nat)
    requires m.Valid() && InRange(m.cell, t) && i <= t && 1 <= k <= t && !Silent(m, t, i, k)
    requires SilentFor(m, t, 0, 1) && SilentFor(m, t, 1, k)
    ensures Reported(m, t, Visited(k)) && !SilentFor(m, t, 1, t + 1)
  {
    assert !SilentFor(m, t, k, k + 1);
  }

  /** What is reported is not silent towards, or not in front of, another visited address. */
  lemma ReportedPair(m: Memory, t: nat, addr: nat)
    requires m.Valid() && InRange(m.cell, t) && Reported(m, t, addr)
    ensures exists k: nat, i: nat :: 1 <= k <= t && i <= t && i != k && addr == Visited(k) && (!Silent(m, t, i, k) || !Silent(m, t, k, i))
  {
    var k: nat :| 1 <= k <= t && addr == Visited(k)
      && if SilentFor(m, t, 0, 1) then SilentFor(m, t, 1, k) && !SilentFor(m, t, k, k + 1)
         else !Silent(m, t, k, 0) && forall i: nat :: i < k ==> Silent(m, t, i, 0);
    if SilentFor(m, t, 0, 1) {
      var i: nat :| i <= t && !Silent(m, t, i, k);
    }
  }

  /** Every visited cell holds the pattern. */
  ghost predicate Patterned(m: Memory, t: nat)
    requires m.Valid() && InRange(m.cell, t)
    reads m.data
  {
    forall i: nat :: i <= t ==> m.data[m.cell[Visited(i)]] == PATTERN
  }

  /** Every visited cell holds the pattern but that of address k, which holds the complement. */
  ghost predicate Marked(m: Memory, t: nat, k: nat)
    requires m.Valid() && InRange(m.cell, t) && k <= t
    reads m.data
  {
    && m.data[m.cell[Visited(k)]] == ANTIPATTERN
    && (forall i: nat :: i <= t && m.cell[Visited(i)] != m.cell[Visited(k)] ==> m.data[m.cell[Visited(i)]] == PATTERN)
  }

  lemma Guard(mask: nat, k: nat)
    requires 1 <= k <= TrailingOnes(mask) + 1
    ensures And(Visited(k), mask) != 0 <==> k <= TrailingOnes(mask)
    ensures k <= TrailingOnes(mask) ==> Visited(k) <= mask
  {
    var j: nat, t := k - 1, TrailingOnes(mask);
    var bit, v := Pow2(j), Visited(k);
    assert v == bit;
    AndPow2(j, mask);
    OnesBit(mask, j);
    assert j < t <==> k <= t;
  }

  lemma {:induction false} OnesBit(mask: nat, k: nat)
    requires k <= TrailingOnes(mask)
    ensures (mask / Pow2(k)) % 2 == 1 <==> k < TrailingOnes(mask)
    ensures k < TrailingOnes(mask) ==> Pow2(k) <= mask
    decreases k
  {
    if k > 0 {
      OnesBit(mask / 2, k - 1);
      ModDouble(mask, Pow2(k - 1));
    }
  }

  lemma StepsInRange(numWords: nat, cell: seq<nat>)
    requires 1 <= numWords <= |cell|
    ensures InRange(cell, Steps(numWords))
  {
    forall i: nat | i <= Steps(numWords)
      ensures Visited(i) < |cell|
    {
      if i > 0 {
        Guard(numWords - 1, i);
      }
    }
  }

  lemma VisitedInjective(i: nat, j: nat)
    requires Visited(i) == Visited(j)
    ensures i == j
  {
    if 0 < i < j {
      Pow2Monotone(i - 1, j - 1);
    } else if 0 < j < i {
      Pow2Monotone(j - 1, i - 1);
    }
  }

  /** The default pattern at the powers of two below numWords. */
  method WriteDefault(m: Memory, numWords: nat)
    requires m.Valid() && 1 <= numWords <= |m.cell| && InRange(m.cell, Steps(numWords))
    modifies m.data
    ensures forall i: nat :: 1 <= i <= Steps(numWords) ==> m.data[m.cell[Visited(i)]] == PATTERN
  {
    var addrMask := numWords - 1;
    ghost var t := Steps(numWords);
    var offset := 1;
    ghost var k := 1;
    Guard(addrMask, 1);
    while And(offset, addrMask) != 0
      invariant 1 <= k <= t + 1 && offset == Visited(k)
      invariant And(offset, addrMask) != 0 <==> k <= t
      invariant forall i: nat :: 1 <= i < k ==> m.data[m.cell[Visited(i)]] == PATTERN
      decreases t + 1 - k
    {
      m.Write(offset, PATTERN);
      offset, k := offset * 2, k + 1;
      Guard(addrMask, k);
    }
  }

  /** Walking up: set the pattern, put the complement at address 0 and see that nothing else moved. */
  method WalkPattern(m: Memory, numWords: nat) returns (result: Option<nat>)
    requires m.Valid() && 1 <= numWords <= |m.cell| && InRange(m.cell, Steps(numWords))
    modifies m.data
    ensures result.None? <==> SilentFor(m, Steps(numWords), 0, 1)
    ensures result.Some? ==> Reported(m, Steps(numWords), result.value)
    ensures Patterned(m, Steps(numWords))
  {
    var addrMask := numWords - 1;
    ghost var t := Steps(numWords);
    WriteDefault(m, numWords);
    m.Write(0, ANTIPATTERN);
    result := None;
    var offset := 1;
    ghost var k := 1;
    Guard(addrMask, 1);
    while And(offset, addrMask) != 0
      invariant 1 <= k <= t + 1 && offset == Visited(k)
      invariant And(offset, addrMask) != 0 <==> k <= t
      invariant result.None? && Marked(m, t, 0)
      invariant forall i: nat :: i < k ==> Silent(m, t, i, 0)
      decreases t + 1 - k
    {
      var w := m.Read(offset);
      assert w == ShownAt(m, t, k, 0);
      if w != PATTERN {
        assert !Silent(m, t, k, 0);
        result := Some(offset);
        break;
      }
      offset, k := offset * 2, k + 1;
      Guard(addrMask, k);
    }
    m.Write(0, PATTERN);
  }

  /** Walking up again with the complement: at each step neither address 0 nor any other visited
      address may move.  A mismatch zeroes both offsets, which ends both loops. */
  method WalkAntiPattern(m: Memory, numWords: nat) returns (result: Option<nat>)
    requires m.Valid() && 1 <= numWords <= |m.cell| && InRange(m.cell, Steps(numWords))
    requires Patterned(m, Steps(numWords)) && SilentFor(m, Steps(numWords), 0, 1)
    modifies m.data
    ensures result.None? <==> SilentFor(m, Steps(numWords), 1, Steps(numWords) + 1)
    ensures result.Some? ==> Reported(m, Steps(numWords), result.value)
  {
    var addrMask := numWords - 1;
    ghost var t := Steps(numWords);
    result := None;
    var testOffset := 1;
    ghost var k := 1;
    Guard(addrMask, 1);
    while And(testOffset, addrMask) != 0
      invariant result.None? ==> 1 <= k <= t + 1 && testOffset == Visited(k)
      invariant result.None? ==> (And(testOffset, addrMask) != 0 <==> k <= t)
      invariant result.None? ==> Patterned(m, t) && SilentFor(m, t, 1, k)
      invariant result.Some? ==> testOffset == 0 && !SilentFor(m, t, 1, t + 1) && Reported(m, t, result.value)
      decreases if result.None? then t + 2 - k else 0
    {
      m.Write(testOffset, ANTIPATTERN);
      assert Marked(m, t, k);
      var base := m.Read(0);
      assert base == ShownAt(m, t, 0, k);
      if base != PATTERN {
        OneGivesAway(m, t, 0, k);
        result := Some(testOffset);
        break;
      }
      if result == None {
        var bad := WalkOthers(m, numWords, testOffset, k);
        if bad {
          ghost var i: nat :| 1 <= i <= t && !Silent(m, t, i, k);
          OneGivesAway(m, t, i, k);
          result := Some(testOffset);
          testOffset := 0;
        }
      }
      if result == None {
        assert SilentFor(m, t, 1, k + 1);
        m.Write(testOffset, PATTERN);
        k := k + 1;
        Guard(addrMask, k);
      }
      testOffset := testOffset * 2;
    }
  }

  /** The inner loop: true exactly if another visited address gives away the tested one. */
  method WalkOthers(m: Memory, numWords: nat, testOffset: nat, ghost k: nat) returns (bad: bool)
    requires m.Valid() && 1 <= numWords <= |m.cell| && InRange(m.cell, Steps(numWords))
    requires 1 <= k <= Steps(numWords) && testOffset == Visited(k) && Marked(m, Steps(numWords), k)
    ensures bad <==> exists i: nat :: 1 <= i <= Steps(numWords) && !Silent(m, Steps(numWords), i, k)
  {
    var addrMask := numWords - 1;
    ghost var t := Steps(numWords);
    bad := false;
    var offset := 1;
    ghost var j := 1;
    Guard(addrMask, 1);
    while And(offset, addrMask) != 0
      invariant 1 <= j <= t + 1 && offset == Visited(j) && !bad
      invariant And(offset, addrMask) != 0 <==> j <= t
      invariant forall i: nat :: 1 <= i < j ==> Silent(m, t, i, k)
      decreases t + 1 - j
    {
      var w := m.Read(offset);
      assert w == ShownAt(m, t, j, k);
      if w != PATTERN && offset != testOffset {
        assert !Silent(m, t, j, k);
        bad := true;
        break;
      }
      if offset == testOffset {
        VisitedInjective(j, k);
      }
      offset, j := offset * 2, j + 1;
      Guard(addrMask, j);
    }
  }

  /** For any map and any stuck bits the test finds nothing exactly when every stuck bit at a
      visited address is stuck at the pattern and visited addresses share only cells that are
      stuck in every bit.  What it reports is the first power of two at fault. */
  method TestAddressBus(m: Memory, numWords: nat) returns (result: Option<nat>)
    requires m.Valid() && 1 <= numWords <= |m.cell|
    modifies m.data
    ensures InRange(m.cell, Steps(numWords))
    ensures result.None? <==> Unnoticed(m, Steps(numWords))
    ensures result.Some? ==> Reported(m, Steps(numWords), result.value)
    ensures SoundAt(m, Steps(numWords)) ==> (result.None? <==> Distinct(m.cell, Steps(numWords)))
    ensures SoundAt(m, Steps(numWords)) && result.Some? ==> Aliased(m.cell, Steps(numWords), result.value)
  {
    StepsInRange(numWords, m.cell);
    AllSilentIff(m, Steps(numWords));
    if SoundAt(m, Steps(numWords)) {
      SoundNotices(m, Steps(numWords));
    }
    result := WalkPattern(m, numWords);
    if result.None? {
      result := WalkAntiPattern(m, numWords);
    }
  }

  lemma {:induction false} OnesOfPow2(n: nat)
    ensures TrailingOnes(Pow2(n) - 1) == n
  {
    if n > 0 {
      assert (Pow2(n) - 1) % 2 == 1 && (Pow2(n) - 1) / 2 == Pow2(n - 1) - 1;
      OnesOfPow2(n - 1);
    }
  }

  /** For a power-of-two word count these are address 0 and every power of two below it. */
  lemma PowerOfTwoVisits(n: nat)
    ensures Steps(Pow2(n)) == n
    ensures forall k: nat :: Pow2(k) < Pow2(n) <==> Pow2(k) == Visited(k + 1) && k + 1 <= Steps(Pow2(n))
  {
    OnesOfPow2(n);
    forall k: nat
      ensures Pow2(k) < Pow2(n) <==> k < n
    {
      if k < n {
        Pow2Monotone(k, n);
      } else {
        Pow2NotLess(n, k);
      }
    }
  }

  lemma HealthyVisits(m: Memory, n: nat)
    requires m.Valid() && 1 <= n <= |m.cell| && m.Healthy(n)
    ensures InRange(m.cell, Steps(n))
    ensures SoundAt(m, Steps(n)) && Distinct(m.cell, Steps(n))
  {
    StepsInRange(n, m.cell);
    forall i: nat | i <= Steps(n)
      ensures Visited(i) < n
    {
      if i > 0 {
        Guard(n - 1, i);
      }
    }
    forall i: nat, j: nat | i < j <= Steps(n)
      ensures m.cell[Visited(i)] != m.cell[Visited(j)]
    {
      if i > 0 {
        Pow2Monotone(i - 1, j - 1);
      }
    }
  }

  /** The three tests together accept a memory exactly when it is healthy. */
  method TestDdr(m: Memory, numWords: nat) returns (ok: bool)
    requires m.Valid() && 1 <= numWords <= |m.cell| && numWords < U64
    modifies m.data
    ensures ok <==> m.Healthy(numWords)
  {
    if m.Healthy(numWords) {
      HealthyVisits(m, numWords);
    }
    var stuck := TestDataBus(m, 0);
    if stuck != 0 {
      return false;
    }
    var bus := TestAddressBus(m, numWords);
    if bus.Some? {
      return false;
    }
    var device := TestDevice(m, numWords);
    ok := device.None?;
  }
}
