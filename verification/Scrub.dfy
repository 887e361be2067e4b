/** The RAM scrubber: one bounded chunk per active call, walking the configured regions
    round and round. */
module Scrub {
  import opened Bits

  const WORD: nat := 8

  datatype Region = Region(baseAddr: nat, endAddr: nat) {
    function Length(): int {
      endAddr - baseAddr
    }
  }

  /** The build-time configuration: the region table, the bytes per call and the divisor. */
  datatype Config = Config(rams: seq<Region>, maxSize: nat, superloops: nat) {
    ghost predicate Valid() {
      && rams != [] && superloops > 0
      && maxSize > 0 && maxSize % WORD == 0
      && forall i :: 0 <= i < |rams| ==> rams[i].baseAddr <= rams[i].endAddr && rams[i].Length() % WORD == 0
    }
  }

  datatype State = State(idx: nat, offset: nat, entryCount: nat)

  ghost predicate Inv(c: Config, s: State) {
    && c.Valid() && s.idx < |c.rams| && s.entryCount < c.superloops
    && s.offset <= c.rams[s.idx].Length()
    && (s.offset % c.maxSize == 0 || s.offset == c.rams[s.idx].Length())
  }

  const INITIAL := State(0, 0, 0)

  function Min(a: int, b: int): int {
    if a < b then a else b
  }

  /** Where the next chunk starts. */
  function Turn(c: Config, s: State): State
    requires s.idx < |c.rams|
  {
    if c.rams[s.idx].baseAddr + s.offset >= c.rams[s.idx].endAddr
    then s.(idx := (s.idx + 1) % |c.rams|, offset := 0)
    else s
  }

  /** How many bytes an active call handles from there. */
  function Chunk(c: Config, s: State): int
    requires s.idx < |c.rams|
  {
    Min(c.maxSize, c.rams[s.idx].Length() - s.offset)
  }

  function Step(c: Config, s: State): State
    requires c.Valid() && s.idx < |c.rams|
  {
    var t := if s.entryCount == 0 then Turn(c, s) else s;
    var u := if s.entryCount == 0 && c.rams[t.idx].Length() != 0 then t.(offset := t.offset + Chunk(c, t)) else t;
    u.(entryCount := (u.entryCount + 1) % c.superloops)
  }

  /** A word of a region is touched by a call. */
  ghost predicate Touches(c: Config, s: State, region: nat, word: nat)
    requires c.Valid() && s.idx < |c.rams|
  {
    var t := Turn(c, s);
    s.entryCount == 0 && t.idx == region && t.offset <= WORD * word < t.offset + Chunk(c, t)
  }

  /** The number of the first n calls that touch the word. */
  ghost function Touched(c: Config, s: State, n: nat, region: nat, word: nat): nat
    requires Inv(c, s)
    decreases n
  {
    if n == 0 then 0
    else
      StepKeepsInv(c, s);
      (if Touches(c, s, region, word) then 1 else 0) + Touched(c, Step(c, s), n - 1, region, word)
  }

  ghost function Run(c: Config, s: State, n: nat): State
    requires Inv(c, s)
    decreases n
  {
    if n == 0 then s
    else
      StepKeepsInv(c, s);
      Run(c, Step(c, s), n - 1)
  }

  lemma AddMultiple(a: nat, m: nat)
    requires m > 0 && a % m == 0
    ensures (a + m) % m == 0 && (a + m) / m == a / m + 1
  {
    var q := a / m;
    assert a == m * q;
    assert a + m == m * (q + 1);
    DivModUnique(a + m, m, q + 1, 0);
  }

  lemma StepKeepsInv(c: Config, s: State)
    requires Inv(c, s)
    ensures Inv(c, Step(c, s))
  {
    var t := Turn(c, s);
    assert t.offset % c.maxSize == 0;
    AddMultiple(t.offset, c.maxSize);
  }

  // ------------------------------------------------------------------ chunk slots

  /** Active calls that one round spends on a region of this length. */
  function Slots(c: Config, length: int): (n: int)
    requires c.maxSize > 0
    ensures n >= 1
  {
    if length <= 0 then 1 else Quotient(length - 1, c.maxSize) + 1
  }

  function Quotient(a: nat, m: nat): (q: nat)
    requires m > 0
  {
    a / m
  }

  function Base(c: Config, i: nat): (n: nat)
    requires c.Valid() && i <= |c.rams|
  {
    if i == 0 then 0 else Base(c, i - 1) + Slots(c, c.rams[i - 1].Length())
  }

  /** Active calls in one round over all regions. */
  function Round(c: Config): nat
    requires c.Valid()
  {
    Base(c, |c.rams|)
  }

  /** The slot that the next active call will handle. */
  ghost function NextSlot(c: Config, s: State): nat
    requires Inv(c, s)
  {
    var t := Turn(c, s);
    Base(c, t.idx) + Quotient(t.offset, c.maxSize)
  }

  lemma {:induction false} BaseOrder(c: Config, i: nat, j: nat)
    requires c.Valid() && i < j <= |c.rams|
    ensures Base(c, i) + Slots(c, c.rams[i].Length()) <= Base(c, j)
    decreases j
  {
    if i + 1 < j {
      BaseOrder(c, i, j - 1);
    }
  }

  /** After the turn the chunk number is within the region's slots, and it is the last one
      exactly when the chunk reaches the end of the region. */
  lemma ChunkNumber(c: Config, s: State)
    requires Inv(c, s)
    ensures var t := Turn(c, s); var length := c.rams[t.idx].Length();
            && t.offset % c.maxSize == 0 && Quotient(t.offset, c.maxSize) < Slots(c, length)
            && (length > 0 ==> t.offset < length)
            && (t.offset + Chunk(c, t) == length <==> Quotient(t.offset, c.maxSize) + 1 == Slots(c, length))
  {
    var t := Turn(c, s);
    assert t.offset % c.maxSize == 0;
    LastChunk(t.offset, c.rams[t.idx].Length(), c.maxSize);
  }

  lemma LastChunk(offset: nat, length: nat, m: nat)
    requires m > 0 && offset % m == 0 && (length == 0 ==> offset == 0) && (length > 0 ==> offset < length)
    ensures length > 0 ==> Quotient(offset, m) <= Quotient(length - 1, m)
    ensures length > 0 ==> (offset + Min(m, length - offset) == length <==> Quotient(offset, m) == Quotient(length - 1, m))
  {
    if length > 0 {
      var q, r := (length - 1) / m, (length - 1) % m;
      var k := offset / m;
      assert offset == m * k && length - 1 == m * q + r;
      MulSign(m, k - q);
      assert m * (k - q) == m * k - m * q;
    }
  }

  lemma NextSlotInRound(c: Config, s: State)
    requires Inv(c, s)
    ensures NextSlot(c, s) < Round(c)
  {
    var t := Turn(c, s);
    ChunkNumber(c, s);
    BaseOrder(c, t.idx, |c.rams|);
  }

  function Advance(c: Config, p: nat): nat
    requires c.Valid()
  {
    if p + 1 == Round(c) then 0 else p + 1
  }

  /** An active call moves on by one slot of the round. */
  lemma ActiveStep(c: Config, s: State)
    requires Inv(c, s) && s.entryCount == 0
    ensures Inv(c, Step(c, s)) && NextSlot(c, Step(c, s)) == Advance(c, NextSlot(c, s))
  {
    StepKeepsInv(c, s);
    ChunkNumber(c, s);
    var t := Turn(c, s);
    var n := |c.rams|;
    var length := c.rams[t.idx].Length();
    var k := Quotient(t.offset, c.maxSize);
    assert Base(c, t.idx + 1) == Base(c, t.idx) + Slots(c, length);
    if t.idx + 1 < n {
      BaseOrder(c, t.idx + 1, n);
    }
    if k + 1 == Slots(c, length) {
      NextRegion(c, Step(c, s));
    } else {
      SameRegion(c, t, Step(c, s));
    }
  }

  lemma NextRegion(c: Config, s: State)
    requires Inv(c, s) && s.offset == c.rams[s.idx].Length()
    ensures NextSlot(c, s) == if s.idx + 1 == |c.rams| then 0 else Base(c, s.idx + 1)
  {
    var n := |c.rams|;
    assert (s.idx + 1) % n == if s.idx + 1 == n then 0 else s.idx + 1;
    assert Quotient(0, c.maxSize) == 0;
  }

  lemma SameRegion(c: Config, t: State, s: State)
    requires Inv(c, s) && s.idx == t.idx && s.offset == t.offset + c.maxSize && s.offset < c.rams[s.idx].Length()
    requires t.offset % c.maxSize == 0
    ensures NextSlot(c, s) == Base(c, t.idx) + Quotient(t.offset, c.maxSize) + 1
  {
    AddMultiple(t.offset, c.maxSize);
  }

  lemma IdleStep(c: Config, s: State)
    requires Inv(c, s) && s.entryCount != 0
    ensures Inv(c, Step(c, s)) && NextSlot(c, Step(c, s)) == NextSlot(c, s)
  {
    StepKeepsInv(c, s);
  }

  /** A word inside its region belongs to one slot, and is touched exactly by the active call
      that handles this slot. */
  lemma TouchedBySlot(c: Config, s: State, region: nat, word: nat)
    requires Inv(c, s) && region < |c.rams| && WORD * word < c.rams[region].Length()
    ensures Touches(c, s, region, word)
            <==> s.entryCount == 0 && NextSlot(c, s) == Base(c, region) + Quotient(WORD * word, c.maxSize)
    ensures Base(c, region) + Quotient(WORD * word, c.maxSize) < Round(c)
  {
    ChunkNumber(c, s);
    var t := Turn(c, s);
    if t.idx == region {
      InChunk(t.offset, c.rams[t.idx].Length(), c.maxSize, WORD * word);
    }
    QuotientMonotone(WORD * word, c.rams[region].Length() - 1, c.maxSize);
    BaseOrder(c, region, |c.rams|);
    if t.idx < region {
      BaseOrder(c, t.idx, region);
    } else if region < t.idx {
      BaseOrder(c, region, t.idx);
    }
  }

  lemma InChunk(offset: nat, length: nat, m: nat, at: nat)
    requires m > 0 && offset % m == 0 && at < length
    ensures offset <= at < offset + Min(m, length - offset) <==> Quotient(offset, m) == Quotient(at, m)
  {
    var k, q := offset / m, at / m;
    assert offset == m * k && at == m * q + at % m;
    MulSign(m, k - q);
    assert m * (k - q) == m * k - m * q;
  }

  lemma QuotientMonotone(a: nat, b: nat, m: nat)
    requires m > 0 && a <= b
    ensures Quotient(a, m) <= Quotient(b, m)
  {
    var q, p := a / m, b / m;
    assert a == m * q + a % m && b == m * p + b % m;
    MulSign(m, q - p);
    assert m * (q - p) == m * q - m * p;
  }

  // ------------------------------------------------------------------- the full period

  /** The time at which slot p is handled, superloops calls after slot p - 1. */
  function Time(c: Config, p: nat): nat {
    if p == 0 then 0 else Time(c, p - 1) + c.superloops
  }

  /** Calls in one full period. */
  function Period(c: Config): nat
    requires c.Valid()
  {
    Time(c, Round(c))
  }

  lemma {:induction false} TimeIsProduct(c: Config, p: nat)
    ensures Time(c, p) == p * c.superloops
  {
    if p > 0 {
      TimeIsProduct(c, p - 1);
    }
  }

  lemma {:induction false} TimeOrder(c: Config, p: nat, q: nat)
    requires p < q
    ensures Time(c, p) + c.superloops <= Time(c, q)
  {
    if p + 1 < q {
      TimeOrder(c, p, q - 1);
    }
  }

  /** The slot handled before p. */
  function Before(c: Config, p: nat): (q: int)
    requires c.Valid()
  {
    if p == 0 then Round(c) - 1 else p - 1
  }

  /** Time within the period. */
  ghost function Clock(c: Config, s: State): int
    requires Inv(c, s)
  {
    var p := NextSlot(c, s);
    NextSlotInRound(c, s);
    if s.entryCount == 0 then Time(c, p) else Time(c, Before(c, p)) + s.entryCount
  }

  lemma ClockTicks(c: Config, s: State)
    requires Inv(c, s)
    ensures 0 <= Clock(c, s) < Period(c) && Inv(c, Step(c, s))
    ensures Clock(c, Step(c, s)) == if Clock(c, s) + 1 == Period(c) then 0 else Clock(c, s) + 1
  {
    NextSlotInRound(c, s);
    var p, r := NextSlot(c, s), Round(c);
    NextCount(s.entryCount, c.superloops);
    assert Period(c) == Time(c, r - 1) + c.superloops;
    if s.entryCount == 0 {
      ActiveStep(c, s);
      assert Time(c, p + 1) == Time(c, p) + c.superloops;
      if p + 1 < r {
        TimeOrder(c, p + 1, r);
      }
    } else {
      IdleStep(c, s);
      if p > 0 {
        TimeOrder(c, p, r);
        assert Time(c, p) == Time(c, p - 1) + c.superloops;
      }
    }
  }

  lemma NextCount(e: nat, x: nat)
    requires e < x
    ensures (e + 1) % x == if e + 1 == x then 0 else e + 1
  {
  }

  lemma ClockAtSlot(c: Config, s: State, q: nat)
    requires Inv(c, s) && q < Round(c)
    ensures Time(c, q) < Period(c)
    ensures Clock(c, s) == Time(c, q) <==> s.entryCount == 0 && NextSlot(c, s) == q
  {
    var p := NextSlot(c, s);
    NextSlotInRound(c, s);
    TimeOrder(c, q, Round(c));
    var handled := if s.entryCount == 0 then p else Before(c, p);
    if handled < q {
      TimeOrder(c, handled, q);
    } else if q < handled {
      TimeOrder(c, q, handled);
    }
  }

  /** The word is touched exactly at its own time. */
  lemma TouchTime(c: Config, s: State, region: nat, word: nat)
    requires Inv(c, s) && region < |c.rams| && WORD * word < c.rams[region].Length()
    ensures var time := Time(c, Base(c, region) + Quotient(WORD * word, c.maxSize));
            time < Period(c) && (Touches(c, s, region, word) <==> Clock(c, s) == time)
  {
    TouchedBySlot(c, s, region, word);
    ClockAtSlot(c, s, Base(c, region) + Quotient(WORD * word, c.maxSize));
  }

  /** Calls until the clock reads the given time. */
  ghost function Wait(c: Config, s: State, time: nat): int
    requires Inv(c, s)
  {
    if Clock(c, s) <= time then time - Clock(c, s) else time - Clock(c, s) + Period(c)
  }

  lemma {:induction false} TouchedOnceAtMost(c: Config, s: State, n: nat, region: nat, word: nat, time: nat)
    requires Inv(c, s) && region < |c.rams| && WORD * word < c.rams[region].Length() && n <= Period(c)
    requires time == Time(c, Base(c, region) + Quotient(WORD * word, c.maxSize))
    ensures Touched(c, s, n, region, word) == if Wait(c, s, time) < n then 1 else 0
    decreases n
  {
    ClockTicks(c, s);
    TouchTime(c, s, region, word);
    if n > 0 {
      TouchedOnceAtMost(c, Step(c, s), n - 1, region, word, time);
      ClockTicks(c, Step(c, s));
    }
  }

  lemma {:induction false} RunKeepsInv(c: Config, s: State, n: nat)
    requires Inv(c, s)
    ensures Inv(c, Run(c, s, n))
    decreases n
  {
    if n > 0 {
      StepKeepsInv(c, s);
      RunKeepsInv(c, Step(c, s), n - 1);
    }
  }

  /** From every state that the scrubber can reach, any superloops * Round(c) consecutive calls
      touch every word of every region exactly once, and the offset stays within its region. */
  lemma EveryWordOncePerPeriod(c: Config, history: nat, window: nat, region: nat, word: nat)
    requires c.Valid() && region < |c.rams| && WORD * word < c.rams[region].Length()
    requires window == Round(c) * c.superloops
    ensures Inv(c, INITIAL)
    ensures Inv(c, Run(c, INITIAL, history))
    ensures Touched(c, Run(c, INITIAL, history), window, region, word) == 1
  {
    assert Inv(c, INITIAL);
    RunKeepsInv(c, INITIAL, history);
    var s := Run(c, INITIAL, history);
    TimeIsProduct(c, Round(c));
    ClockTicks(c, s);
    TouchTime(c, s, region, word);
    TouchedOnceAtMost(c, s, window, region, word, Time(c, Base(c, region) + Quotient(WORD * word, c.maxSize)));
  }

  lemma {:induction false} ClockRuns(c: Config, s: State, n: nat)
    requires Inv(c, s)
    ensures Inv(c, Run(c, s, n)) && Clock(c, Run(c, s, n)) == Remainder(Clock(c, s) + n, Period(c))
    decreases n
  {
    ClockTicks(c, s);
    if n == 0 {
      DivModUnique(Clock(c, s), Period(c), 0, Clock(c, s));
    } else {
      var next := Step(c, s);
      ClockRuns(c, next, n - 1);
      if Clock(c, s) + 1 == Period(c) {
        RemainderPast(n - 1, Period(c));
      }
    }
  }

  function Remainder(a: int, m: int): int
    requires m > 0
  {
    a % m
  }

  lemma RemainderPast(a: nat, m: nat)
    requires m > 0
    ensures Remainder(a + m, m) == Remainder(a, m)
  {
    DivModUnique(a + m, m, a / m + 1, a % m);
  }

  /** The chunk that the first call of all skips: that of an empty first region. */
  function Skipped(c: Config): nat
    requires c.Valid()
  {
    if c.rams[0].Length() == 0 && |c.rams| > 1 then 1 else 0
  }

  lemma StartsAt(c: Config)
    requires Inv(c, INITIAL) && (|c.rams| == 1 ==> c.rams[0].Length() > 0)
    ensures Clock(c, INITIAL) == Time(c, Skipped(c))
  {
    assert Quotient(0, c.maxSize) == 0 && Base(c, 0) == 0;
    if Skipped(c) == 1 {
      assert 1 % |c.rams| == 1;
      assert Base(c, 1) == Base(c, 0) + Slots(c, c.rams[0].Length()) == 1;
    }
  }

  /** From start-up, call n (counted from 0) accesses the 64-bit word at byte 8w of a region exactly
      when, up to whole periods, superloops calls have been spent on each chunk of maxSize bytes in
      front of the word's own; an empty region counts for one chunk, except that the very first call
      skips an empty first region. */
  lemma TouchedExactlyAt(c: Config, n: nat, region: nat, word: nat, period: nat, time: nat)
    requires c.Valid() && region < |c.rams| && 8 * word < c.rams[region].Length()
    requires period == Round(c) * c.superloops && time == n + Skipped(c) * c.superloops
    ensures Inv(c, INITIAL) && Inv(c, Run(c, INITIAL, n)) && period > 0
    ensures Touches(c, Run(c, INITIAL, n), region, word)
            <==> time % period == (Base(c, region) + (8 * word) / c.maxSize) * c.superloops
  {
    TimeIsProduct(c, Round(c));
    ClockFromStart(c, n, time);
    var slot := Base(c, region) + Quotient(8 * word, c.maxSize);
    TimeIsProduct(c, slot);
    TouchedWhen(c, Run(c, INITIAL, n), region, word, slot);
    assert Clock(c, Run(c, INITIAL, n)) == time % period;
  }

  lemma ClockFromStart(c: Config, n: nat, time: nat)
    requires c.Valid() && (|c.rams| == 1 ==> c.rams[0].Length() > 0) && time == n + Skipped(c) * c.superloops
    ensures Inv(c, INITIAL) && Inv(c, Run(c, INITIAL, n)) && Period(c) > 0
    ensures Clock(c, Run(c, INITIAL, n)) == Remainder(time, Period(c))
  {
    assert Inv(c, INITIAL);
    StartsAt(c);
    TimeIsProduct(c, Skipped(c));
    ClockTicks(c, INITIAL);
    ClockRuns(c, INITIAL, n);
  }

  lemma TouchedWhen(c: Config, s: State, region: nat, word: nat, slot: nat)
    requires Inv(c, s) && region < |c.rams| && WORD * word < c.rams[region].Length()
    requires slot == Base(c, region) + Quotient(WORD * word, c.maxSize)
    ensures Touches(c, s, region, word) <==> Clock(c, s) == Time(c, slot)
  {
    TouchTime(c, s, region, word);
  }

  // ------------------------------------------------------------------- the service

  class Scrubber {
    const c: Config
    var idx: nat
    var offset: nat
    var entryCount: nat
    /** Every 64-bit access so far, as region number and address. */
    ghost var accesses: seq<(nat, nat)>

    constructor (c: Config)
      ensures this.c == c && Model() == INITIAL && accesses == []
    {
      this.c := c;
      idx, offset, entryCount := 0, 0, 0;
      accesses := [];
    }

    function Model(): State
      reads this
    {
      State(idx, offset, entryCount)
    }

    /** The words of a chunk, in order. */
    static ghost function Sweep(region: nat, start: nat, n: nat): seq<(nat, nat)> {
      seq(n, (k: nat) => (region, start + WORD * k))
    }

    method ScrubChunk(chunkStart: nat, chunkSize: nat)
      requires chunkSize % WORD == 0
      modifies `accesses
      ensures accesses == old(accesses) + Sweep(idx, chunkStart, chunkSize / WORD)
    {
      var pMem := chunkStart;
      ghost var n := 0;
      while pMem < chunkStart + chunkSize
        invariant pMem == chunkStart + WORD * n && n <= chunkSize / WORD
        invariant accesses == old(accesses) + Sweep(idx, chunkStart, n)
        decreases chunkSize / WORD - n
      {
        accesses := accesses + [(idx, pMem)];
        pMem, n := pMem + WORD, n + 1;
      }
    }

    method ScrubbingHandler()
      requires Inv(c, Model())
      modifies this
      ensures Inv(c, Model()) && Model() == Step(c, old(Model()))
      ensures old(entryCount) != 0 ==> accesses == old(accesses)
      ensures old(entryCount) == 0 ==>
                var t := Turn(c, old(Model()));
                accesses == old(accesses) + Sweep(t.idx, c.rams[t.idx].baseAddr + t.offset, Chunk(c, t) / WORD)
    {
      StepKeepsInv(c, Model());
      ChunkAligned(c, Model());
      if entryCount == 0 {
        if c.rams[idx].baseAddr + offset >= c.rams[idx].endAddr {
          idx := (idx + 1) % |c.rams|;
          offset := 0;
        }
        var length := c.rams[idx].endAddr - c.rams[idx].baseAddr;
        if length != 0 {
          var chunkSize := Min(c.maxSize, length - offset);
          ScrubChunk(c.rams[idx].baseAddr + offset, chunkSize);
          offset := offset + chunkSize;
        }
      }
      entryCount := (entryCount + 1) % c.superloops;
    }
  }

  lemma ChunkAligned(c: Config, s: State)
    requires Inv(c, s)
    ensures var t := Turn(c, s); 0 <= Chunk(c, t) && Chunk(c, t) % WORD == 0
    ensures var t := Turn(c, s); c.rams[t.idx].Length() == 0 ==> Chunk(c, t) == 0
  {
    var t := Turn(c, s);
    ChunkNumber(c, s);
    OffsetAligned(c, s);
  }

  /** The accesses of an active call are the touched words, each once. */
  lemma AccessesAreTouches(c: Config, s: State, region: nat, word: nat)
    requires Inv(c, s) && s.entryCount == 0 && region < |c.rams|
    ensures var t := Turn(c, s);
            var sweep := Scrubber.Sweep(t.idx, c.rams[t.idx].baseAddr + t.offset, Max0(Chunk(c, t)) / WORD);
            && ((region, c.rams[region].baseAddr + WORD * word) in sweep <==> Touches(c, s, region, word))
            && forall i, j :: 0 <= i < j < |sweep| ==> sweep[i] != sweep[j]
  {
    var t := Turn(c, s);
    ChunkAligned(c, s);
    OffsetAligned(c, s);
    var n := Chunk(c, t) / WORD;
    var sweep := Scrubber.Sweep(t.idx, c.rams[t.idx].baseAddr + t.offset, n);
    if Touches(c, s, region, word) {
      var k := word - t.offset / WORD;
      assert sweep[k] == (region, c.rams[region].baseAddr + WORD * word);
    }
  }

  function Max0(n: int): nat {
    if n < 0 then 0 else n
  }

  lemma OffsetAligned(c: Config, s: State)
    requires Inv(c, s)
    ensures Turn(c, s).offset % WORD == 0
  {
    var t := Turn(c, s);
    ChunkNumber(c, s);
    var k, m := t.offset / c.maxSize, c.maxSize / WORD;
    assert t.offset == c.maxSize * k && c.maxSize == WORD * m;
    MultipleOfWord(t.offset, m, k);
  }

  lemma MultipleOfWord(x: nat, m: nat, k: nat)
    requires x == WORD * m * k
    ensures x % WORD == 0
  {
    assert WORD * m * k == WORD * (m * k);
    DivModUnique(x, WORD, m * k, 0);
  }
}
