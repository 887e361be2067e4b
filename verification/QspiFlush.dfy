/** Writing the dirty blocks back: erase, then program. */
module QspiFlush {
  import opened BadBlocks
  import opened QspiCache
  import opened Sequences

  /** The physical blocks whose erase operation fails, and the bits that program operations miss.  The
      driver takes no notice of whether a program operation has reported a failure. */
  datatype Faults = Faults(erase: set<nat>, missed: map<nat, byte>)

  const NO_FAULTS := Faults({}, map[])

  /** Block p erased and programmed from the cache. */
  function Stored(c: Cache, p: nat, missed: map<nat, byte>): (r: Cache)
    requires c.Valid() && p < c.total
    ensures r.Valid()
  {
    var blank := EraseBlock(c.blockSize, p, c.flash);
    c.(flash := ProgramBlock(c.blockSize, p, blank, c.data, missed), dirty := c.dirty[p := false], erased := c.erased + [p])
  }

  /** The write-back loop from logical block l on, with n dirty blocks expected. */
  function CopyBack(c: Cache, l: nat, n: nat, faults: Faults): (r: Cache)
    requires c.Valid() && l <= |c.blocks|
    ensures r.Valid() && r.blocks == c.blocks && r.total == c.total && r.blockSize == c.blockSize
    ensures r.inCache == c.inCache && r.data == c.data && r.dirtyFlag == c.dirtyFlag
    decreases |c.blocks| - l
  {
    if n == 0 || l == |c.blocks| then c
    else
      var p := c.blocks[l];
      if c.inCache[p] && c.dirty[p] then
        if p in faults.erase then c
        else CopyBack(Stored(c, p, faults.missed), l + 1, n - 1, faults)
      else CopyBack(c, l + 1, n, faults)
  }

  function Count(flags: seq<bool>): (n: nat) {
    if flags == [] then 0 else (if flags[|flags| - 1] then 1 else 0) + Count(flags[..|flags| - 1])
  }

  /** Dirty descriptors are counted over the block numbers below the offered block count. */
  function Flush(c: Cache, faults: Faults): (r: Cache)
    requires c.Valid() && |c.blocks| <= c.total
    ensures r.Valid()
  {
    if c.dirtyFlag then CopyBack(c, 0, Count(c.dirty[..|c.blocks|]), faults).(dirtyFlag := false) else c
  }

  // ----------------------------------------------------------- what a flush stores

  /** The blocks waiting to be written back, in the order of the loop. */
  ghost function Waiting(c: Cache, l: nat): seq<nat>
    requires c.Valid() && l <= |c.blocks|
    decreases |c.blocks| - l
  {
    if l == |c.blocks| then []
    else (if c.inCache[c.blocks[l]] && c.dirty[c.blocks[l]] then [c.blocks[l]] else []) + Waiting(c, l + 1)
  }

  /** Byte i once the given blocks are written back. */
  ghost function StoredByte(c: Cache, ps: seq<nat>, missed: map<nat, byte>, i: nat): byte
    requires c.Valid() && i < |c.data|
  {
    var p := BlockOf(c.blockSize, i);
    if p !in ps then c.flash[i] else c.data[i] | Missed(missed, i)
  }

  /** All the given blocks written back. */
  ghost function StoreAll(c: Cache, ps: seq<nat>, missed: map<nat, byte>): (r: Cache)
    requires c.Valid()
    ensures r.Valid()
  {
    c.(flash := seq(|c.flash|, i requires 0 <= i < |c.flash| => StoredByte(c, ps, missed, i)),
       dirty := seq(c.total, p requires 0 <= p < c.total => c.dirty[p] && p !in ps),
       erased := c.erased + ps)
  }

  lemma StoreNone(c: Cache, missed: map<nat, byte>)
    requires c.Valid()
    ensures StoreAll(c, [], missed) == c
  {
    assert StoreAll(c, [], missed).flash == c.flash && StoreAll(c, [], missed).dirty == c.dirty;
  }

  lemma StoreOne(c: Cache, p: nat, missed: map<nat, byte>)
    requires c.Valid() && p < c.total
    ensures Stored(c, p, missed) == StoreAll(c, [p], missed)
  {
    ProgramErased(c.blockSize, p, c.flash, c.data, missed);
    assert Stored(c, p, missed).flash == StoreAll(c, [p], missed).flash;
    assert Stored(c, p, missed).dirty == StoreAll(c, [p], missed).dirty;
  }

  lemma StoreMore(c: Cache, ps: seq<nat>, qs: seq<nat>, missed: map<nat, byte>)
    requires c.Valid()
    ensures StoreAll(StoreAll(c, ps, missed), qs, missed) == StoreAll(c, ps + qs, missed)
  {
    var m, r := StoreAll(c, ps, missed), StoreAll(c, ps + qs, missed);
    forall i: nat | i < |c.data|
      ensures StoredByte(m, qs, missed, i) == StoredByte(c, ps + qs, missed, i)
    {
    }
    assert StoreAll(m, qs, missed).flash == r.flash;
    assert StoreAll(m, qs, missed).dirty == r.dirty;
    assert (c.erased + ps) + qs == c.erased + (ps + qs);
  }

  /** The later blocks wait on unchanged when an earlier one has been stored. */
  lemma {:induction false} WaitingAfter(c: Cache, l: nat, p: nat, missed: map<nat, byte>)
    requires c.Valid() && l <= |c.blocks| && p < c.total
    requires forall k :: l <= k < |c.blocks| ==> c.blocks[k] != p
    ensures Waiting(Stored(c, p, missed), l) == Waiting(c, l)
    decreases |c.blocks| - l
  {
    if l < |c.blocks| {
      WaitingAfter(c, l + 1, p, missed);
    }
  }

  function Take(s: seq<nat>, n: nat): seq<nat> {
    if n < |s| then s[..n] else s
  }

  /** The blocks before the first one that cannot be erased. */
  ghost function UntilFailure(s: seq<nat>, bad: set<nat>): seq<nat>
    decreases |s|
  {
    if s == [] || s[0] in bad then [] else [s[0]] + UntilFailure(s[1..], bad)
  }

  /** The given blocks written back one after the other. */
  ghost function StoreEach(c: Cache, ps: seq<nat>, missed: map<nat, byte>): (r: Cache)
    requires c.Valid()
    ensures r.Valid() && r.total == c.total
    decreases |ps|
  {
    if ps == [] then c
    else StoreEach(if ps[0] < c.total then Stored(c, ps[0], missed) else c, ps[1..], missed)
  }

  lemma {:induction false} StoreEachIsAll(c: Cache, ps: seq<nat>, missed: map<nat, byte>)
    requires c.Valid() && forall i :: 0 <= i < |ps| ==> ps[i] < c.total
    ensures StoreEach(c, ps, missed) == StoreAll(c, ps, missed)
    decreases |ps|
  {
    if ps == [] {
      StoreNone(c, missed);
    } else {
      var p, rest := ps[0], ps[1..];
      StoreEachIsAll(Stored(c, p, missed), rest, missed);
      StoreOne(c, p, missed);
      StoreMore(c, [p], rest, missed);
      assert [p] + rest == ps;
    }
  }

  lemma TakeCons(p: nat, s: seq<nat>, n: nat)
    requires n > 0
    ensures Take([p] + s, n) != [] && Take([p] + s, n)[0] == p && Take([p] + s, n)[1..] == Take(s, n - 1)
  {
  }

  ghost predicate StoresUntilFailure(c: Cache, l: nat, n: nat, faults: Faults)
    requires c.Valid() && l <= |c.blocks|
  {
    CopyBack(c, l, n, faults) == StoreEach(c, UntilFailure(Take(Waiting(c, l), n), faults.erase), faults.missed)
  }

  lemma StoresNext(c: Cache, l: nat, n: nat, p: nat, faults: Faults, next: nat, fewer: nat)
    requires c.Valid() && l < |c.blocks| && n > 0 && p == c.blocks[l] && c.inCache[p] && c.dirty[p]
    requires next == l + 1 && fewer == n - 1
    requires p !in faults.erase ==> StoresUntilFailure(Stored(c, p, faults.missed), next, fewer, faults)
    ensures StoresUntilFailure(c, l, n, faults)
  {
    var ws := Waiting(c, next);
    WaitingAfter(c, next, p, faults.missed);
    TakeCons(p, ws, n);
    var taken := Take([p] + ws, n);
    assert Waiting(c, l) == [p] + ws;
    if p in faults.erase {
      assert UntilFailure(taken, faults.erase) == [];
    } else {
      var rest := UntilFailure(taken[1..], faults.erase);
      assert UntilFailure(taken, faults.erase) == [p] + rest;
      assert ([p] + rest)[0] == p && ([p] + rest)[1..] == rest;
    }
  }

  /** Whatever fails, the loop stores the waiting blocks in order up to its budget, stopping at the
      first one that cannot be erased. */
  lemma {:induction false} CopyBackStores(c: Cache, l: nat, n: nat, faults: Faults)
    requires c.Valid() && l <= |c.blocks|
    ensures StoresUntilFailure(c, l, n, faults)
    decreases |c.blocks| - l
  {
    if n == 0 || l == |c.blocks| {
      assert Take(Waiting(c, l), n) == [];
    } else if c.inCache[c.blocks[l]] && c.dirty[c.blocks[l]] {
      var p := c.blocks[l];
      if p !in faults.erase {
        CopyBackStores(Stored(c, p, faults.missed), l + 1, n - 1, faults);
      }
      StoresNext(c, l, n, p, faults, l + 1, n - 1);
    } else {
      CopyBackStores(c, l + 1, n, faults);
      assert Waiting(c, l) == Waiting(c, l + 1);
    }
  }

  lemma {:induction false} UntilFailureIs(s: seq<nat>, bad: set<nat>)
    ensures UntilFailure(s, bad) <= s && forall x :: x in UntilFailure(s, bad) ==> x !in bad
    ensures |UntilFailure(s, bad)| < |s| ==> s[|UntilFailure(s, bad)|] in bad
    decreases |s|
  {
    if s != [] && s[0] !in bad {
      UntilFailureIs(s[1..], bad);
      assert s == [s[0]] + s[1..];
    }
  }

  // --------------------------------------------------- counting and the early exit

  ghost function Raised(flags: seq<bool>): set<nat> {
    set p: nat | p < |flags| && flags[p]
  }

  lemma {:induction false} CountIsCardinality(flags: seq<bool>)
    ensures Count(flags) == |Raised(flags)|
  {
    if flags != [] {
      var last := |flags| - 1;
      CountIsCardinality(flags[..last]);
      if flags[last] {
        assert Raised(flags) == Raised(flags[..last]) + {last};
      } else {
        assert Raised(flags) == Raised(flags[..last]);
      }
    }
  }

  ghost predicate NoRepeats(s: seq<nat>) {
    forall i, j :: 0 <= i < j < |s| ==> s[i] != s[j]
  }

  ghost function Elements(s: seq<nat>): set<nat> {
    set x | x in s
  }

  lemma {:induction false} NoRepeatsCardinality(s: seq<nat>)
    requires NoRepeats(s)
    ensures |Elements(s)| == |s|
  {
    if s == [] {
      assert Elements(s) == {};
    } else {
      NoRepeatsCardinality(s[1..]);
      assert Elements(s) == {s[0]} + Elements(s[1..]);
    }
  }

  lemma {:induction false} WaitingAre(c: Cache, l: nat)
    requires c.Valid() && l <= |c.blocks|
    ensures NoRepeats(Waiting(c, l))
    ensures forall p: nat :: p in Waiting(c, l) <==> p in c.blocks[l..] && p < c.total && c.inCache[p] && c.dirty[p]
    decreases |c.blocks| - l
  {
    if l < |c.blocks| {
      WaitingAre(c, l + 1);
      assert c.blocks[l..] == [c.blocks[l]] + c.blocks[l + 1..];
      assert c.blocks[l] !in c.blocks[l + 1..];
    }
  }

  /** Every dirty block is cached and is one of the offered blocks. */
  ghost predicate DirtyIsCached(c: Cache)
    requires c.Valid()
  {
    forall p: nat :: p < c.total && c.dirty[p] ==> c.inCache[p] && p in c.blocks
  }

  lemma WaitingIsDirty(c: Cache)
    requires c.Valid() && DirtyIsCached(c)
    ensures NoRepeats(Waiting(c, 0)) && Elements(Waiting(c, 0)) == Raised(c.dirty)
    ensures |Waiting(c, 0)| == |Raised(c.dirty)|
  {
    WaitingAre(c, 0);
    assert c.blocks[0..] == c.blocks;
    NoRepeatsCardinality(Waiting(c, 0));
  }

  /** The loop's budget, a count over the low block numbers, against the number of dirty blocks. */
  lemma Budget(c: Cache)
    requires c.Valid() && |c.blocks| <= c.total
    ensures Count(c.dirty[..|c.blocks|]) <= |Raised(c.dirty)|
    ensures Count(c.dirty[..|c.blocks|]) == |Raised(c.dirty)| <==> forall p: nat :: p < c.total && c.dirty[p] ==> p < |c.blocks|
  {
    var low, all := Raised(c.dirty[..|c.blocks|]), Raised(c.dirty);
    CountIsCardinality(c.dirty[..|c.blocks|]);
    assert low <= all;
    Subset(low, all);
    if forall p: nat :: p < c.total && c.dirty[p] ==> p < |c.blocks| {
      assert low == all;
    } else {
      var p: nat :| p < c.total && c.dirty[p] && p >= |c.blocks|;
      assert p in all && p !in low;
    }
  }

  lemma Subset(a: set<nat>, b: set<nat>)
    requires a <= b
    ensures |a| <= |b| && (|a| == |b| <==> a == b)
  {
    assert b == a + (b - a);
    assert |b| == |a| + |b - a|;
  }

  /** Whatever fails, the exact state after a flush. */
  lemma FlushStores(c: Cache, faults: Faults)
    requires c.Valid() && |c.blocks| <= c.total && c.dirtyFlag
    ensures Flush(c, faults) ==
            StoreAll(c, UntilFailure(Take(Waiting(c, 0), Count(c.dirty[..|c.blocks|])), faults.erase), faults.missed).(dirtyFlag := false)
  {
    var n := Count(c.dirty[..|c.blocks|]);
    var taken := Take(Waiting(c, 0), n);
    var ps := UntilFailure(taken, faults.erase);
    CopyBackStores(c, 0, n, faults);
    WaitingAre(c, 0);
    UntilFailureIs(taken, faults.erase);
    forall i | 0 <= i < |ps|
      ensures ps[i] < c.total
    {
      assert ps[i] == Waiting(c, 0)[i] && Waiting(c, 0)[i] in Waiting(c, 0);
    }
    StoreEachIsAll(c, ps, faults.missed);
  }

  /** Without faults just the blocks within the budget are clean afterwards. */
  lemma DirtyAfter(c: Cache, w: seq<nat>, n: nat)
    requires c.Valid() && |c.blocks| <= c.total && c.dirtyFlag
    requires w == Waiting(c, 0) && n == Count(c.dirty[..|c.blocks|])
    ensures forall p: nat :: p < c.total ==> (Flush(c, NO_FAULTS).dirty[p] <==> c.dirty[p] && p !in Take(w, n))
  {
    FlushStores(c, NO_FAULTS);
    UntilFailureIs(Take(w, n), {});
    assert UntilFailure(Take(w, n), {}) == Take(w, n);
  }

  /** The early exit is safe exactly when no dirty block has a number at or above the offered count,
      which without bad blocks is always so. */
  lemma EarlyExitIff(c: Cache)
    requires c.Valid() && |c.blocks| <= c.total && c.dirtyFlag && DirtyIsCached(c)
    ensures (forall p: nat :: p < c.total ==> !Flush(c, NO_FAULTS).dirty[p])
            <==> (forall p: nat :: p < c.total && c.dirty[p] ==> p < |c.blocks|)
  {
    var w, n := Waiting(c, 0), Count(c.dirty[..|c.blocks|]);
    DirtyAfter(c, w, n);
    WaitingIsDirty(c);
    Budget(c);
    if n == |w| {
      forall p: nat | p < c.total
        ensures !Flush(c, NO_FAULTS).dirty[p]
      {
        assert p in Raised(c.dirty) ==> p in Elements(w);
      }
    } else {
      assert w[n] in Elements(w);
      assert w[n] !in w[..n];
      assert Flush(c, NO_FAULTS).dirty[w[n]];
    }
  }

  // ------------------------------------------------------------- flushes that may fail

  lemma SoundIsCached(c: Cache, k: nat)
    requires c.Valid() && Sound(c, k)
    ensures DirtyIsCached(c) && Take(Waiting(c, 0), Count(c.dirty[..|c.blocks|])) == Waiting(c, 0)
  {
    forall p: nat | p < c.total && c.dirty[p]
      ensures c.inCache[p] && p in c.blocks
    {
      assert c.blocks[p] == p;
    }
    WaitingIsDirty(c);
    Budget(c);
  }

  /** The blocks that a flush under faults manages to erase. */
  ghost function Flushed(c: Cache, faults: Faults): seq<nat>
    requires c.Valid()
  {
    UntilFailure(Waiting(c, 0), faults.erase)
  }

  /** After a flush that may fail: just the flushed blocks are clean, and they hold the cached bytes with
      the missed bits set. */
  lemma FlushUnderFaults(c: Cache, k: nat, faults: Faults)
    requires c.Valid() && Sound(c, k) && c.dirtyFlag
    ensures Flush(c, faults) == StoreAll(c, Flushed(c, faults), faults.missed).(dirtyFlag := false)
    ensures NoRepeats(Waiting(c, 0)) && Elements(Waiting(c, 0)) == Raised(c.dirty)
    ensures forall p :: p in Flushed(c, faults) ==> p < c.total && c.dirty[p] && p !in faults.erase
    ensures (forall p: nat :: p < c.total && c.dirty[p] ==> p in Flushed(c, faults))
            <==> (forall p: nat :: p < c.total && c.dirty[p] ==> p !in faults.erase)
  {
    SoundIsCached(c, k);
    FlushStores(c, faults);
    WaitingIsDirty(c);
    var w, ps := Waiting(c, 0), Flushed(c, faults);
    UntilFailureIs(w, faults.erase);
    forall p | p in ps
      ensures p in w && p in Raised(c.dirty)
    {
      assert p in Elements(w);
    }
    if |ps| < |w| {
      assert w[|ps|] in Elements(w) && w[|ps|] in Raised(c.dirty);
    } else {
      assert ps == w;
      assert forall p: nat :: p < c.total && c.dirty[p] ==> p in Raised(c.dirty) && p in Elements(w);
    }
  }

  lemma {:induction false} WaitingIncreases(c: Cache, l: nat)
    requires c.Valid() && l <= |c.blocks| && forall i, j :: 0 <= i < j < |c.blocks| ==> c.blocks[i] < c.blocks[j]
    ensures Increasing(Waiting(c, l)) && forall p :: p in Waiting(c, l) ==> l < |c.blocks| && c.blocks[l] <= p
    decreases |c.blocks| - l
  {
    if l < |c.blocks| {
      WaitingIncreases(c, l + 1);
      if c.inCache[c.blocks[l]] && c.dirty[c.blocks[l]] {
        Prepend(c.blocks[l], Waiting(c, l + 1));
      }
    }
  }

  lemma {:induction false} FlushedBefore(s: seq<nat>, bad: set<nat>, p: nat)
    requires Increasing(s)
    ensures p in UntilFailure(s, bad) <==> p in s && forall q :: q in s && q <= p ==> q !in bad
    decreases |s|
  {
    if s != [] {
      var rest := s[1..];
      assert s == [s[0]] + rest;
      forall q | q in rest
        ensures s[0] < q
      {
        var k :| 0 <= k < |rest| && rest[k] == q;
        assert s[k + 1] == q;
      }
      FlushedBefore(rest, bad, p);
    }
  }

  /** The blocks are written back by increasing number: those flushed are just the dirty ones with no
      failing erase among the dirty blocks up to them. */
  lemma FlushedAre(c: Cache, k: nat, faults: Faults, p: nat)
    requires c.Valid() && Sound(c, k) && forall i, j :: 0 <= i < j < |c.blocks| ==> c.blocks[i] < c.blocks[j]
    ensures p in Flushed(c, faults) <==>
            p < c.total && c.dirty[p] && forall q: nat :: q <= p && c.dirty[q] ==> q !in faults.erase
  {
    SoundIsCached(c, k);
    WaitingIsDirty(c);
    WaitingIncreases(c, 0);
    FlushedBefore(Waiting(c, 0), faults.erase, p);
    forall q: nat
      ensures q in Waiting(c, 0) <==> q < c.total && c.dirty[q]
    {
      assert q in Elements(Waiting(c, 0)) <==> q in Raised(c.dirty);
    }
  }

  /** A flush never changes what the device holds, whatever fails. */
  lemma FlushKeepsLogical(c: Cache, k: nat, faults: Faults)
    requires c.Valid() && Sound(c, k)
    ensures var r := Flush(c, faults); Sound(r, k) && Logical(r) == Logical(c)
  {
    if c.dirtyFlag {
      FlushUnderFaults(c, k, faults);
      var r := Flush(c, faults);
      forall i: nat | i < |c.data|
        ensures LogicalByte(r, i) == LogicalByte(c, i)
      {
        BlockBelow(c, i);
        assert r.flash[i] == StoredByte(c, Flushed(c, faults), faults.missed, i);
      }
    }
  }

  ghost predicate ErasesSucceed(c: Cache, faults: Faults)
    requires c.Valid()
  {
    forall p: nat :: p < c.total && c.dirty[p] ==> p !in faults.erase
  }

  /** A byte that programming spoils: it is dirty, and a bit that should be cleared is missed. */
  ghost predicate Lost(c: Cache, faults: Faults, i: nat)
    requires c.Valid() && i < |c.data|
  {
    BlockBelow(c, i);
    var p := BlockOf(c.blockSize, i);
    c.dirty[p] && c.data[i] | Missed(faults.missed, i) != c.data[i]
  }

  /** Nothing is dirty after a flush exactly if no dirty block's erase fails.  Otherwise what is left
      is stranded: the flag is down, so no later flush does anything before another write. */
  lemma FlushCleansIff(c: Cache, k: nat, faults: Faults, later: Faults)
    requires c.Valid() && Coherent(c, k)
    ensures var r := Flush(c, faults); (Raised(r.dirty) == {} <==> ErasesSucceed(c, faults)) && !r.dirtyFlag && Flush(r, later) == r
  {
    var r := Flush(c, faults);
    if c.dirtyFlag {
      FlushUnderFaults(c, k, faults);
      var ps := Flushed(c, faults);
      forall p: nat | p < c.total
        ensures p in Raised(r.dirty) <==> c.dirty[p] && p !in ps
      {
        assert r.dirty[p] <==> c.dirty[p] && p !in ps;
      }
    } else {
      assert Raised(r.dirty) == {};
    }
  }

  lemma CleanAfterFlushIff(c: Cache, k: nat, faults: Faults, i: nat)
    requires c.Valid() && Coherent(c, k) && c.dirtyFlag && ErasesSucceed(c, faults) && i < |c.data|
    ensures CleanByte(Flush(c, faults), i) <==> !Lost(c, faults, i)
  {
    FlushUnderFaults(c, k, faults);
    BlockBelow(c, i);
    assert CleanByte(c, i);
    assert Flush(c, faults).flash[i] == StoredByte(c, Flushed(c, faults), faults.missed, i);
  }

  /** The device is coherent after a flush exactly if no dirty block's erase fails and programming
      misses no bit that should be cleared. */
  lemma FlushCoherentIff(c: Cache, k: nat, faults: Faults)
    requires c.Valid() && Coherent(c, k)
    ensures Coherent(Flush(c, faults), k) <==>
            ErasesSucceed(c, faults) && forall i: nat :: i < |c.data| ==> !Lost(c, faults, i)
  {
    var r := Flush(c, faults);
    FlushKeepsLogical(c, k, faults);
    FlushCleansIff(c, k, faults, faults);
    if ErasesSucceed(c, faults) {
      NothingDirty(r);
      if c.dirtyFlag {
        forall i: nat | i < |c.data|
          ensures CleanByte(r, i) <==> !Lost(c, faults, i)
        {
          CleanAfterFlushIff(c, k, faults, i);
        }
      }
    } else {
      StillDirty(r);
    }
  }

  lemma NothingDirty(r: Cache)
    requires r.Valid() && Raised(r.dirty) == {}
    ensures forall p: nat :: p < r.total ==> !r.dirty[p]
  {
    forall p: nat | p < r.total
      ensures !r.dirty[p]
    {
      assert p !in Raised(r.dirty);
    }
  }

  lemma StillDirty(r: Cache)
    requires r.Valid() && Raised(r.dirty) != {}
    ensures exists p :: 0 <= p < r.total && r.dirty[p]
  {
    var p :| p in Raised(r.dirty);
  }

  /** If nothing fails the flash is the device's contents afterwards; the blocks erased are the dirty
      ones, each once. */
  lemma FlushRefines(c: Cache, k: nat)
    requires c.Valid() && Coherent(c, k)
    ensures var r := Flush(c, NO_FAULTS); r.flash == Logical(c) && Logical(r) == Logical(c) && Coherent(r, k)
    ensures Raised(Flush(c, NO_FAULTS).dirty) == {}
    ensures Flush(c, NO_FAULTS).erased == c.erased + Waiting(c, 0)
    ensures NoRepeats(Waiting(c, 0)) && Elements(Waiting(c, 0)) == Raised(c.dirty)
  {
    var r := Flush(c, NO_FAULTS);
    FlushCoherentIff(c, k, NO_FAULTS);
    FlushCleansIff(c, k, NO_FAULTS, NO_FAULTS);
    FlushKeepsLogical(c, k, NO_FAULTS);
    SoundIsCached(c, k);
    WaitingIsDirty(c);
    UntilFailureIs(Waiting(c, 0), {});
    assert Flushed(c, NO_FAULTS) == Waiting(c, 0);
    if c.dirtyFlag {
      FlushUnderFaults(c, k, NO_FAULTS);
    } else {
      assert Elements(Waiting(c, 0)) == {};
      assert Waiting(c, 0) == [];
    }
    NothingDirty(r);
    forall i: nat | i < |c.data|
      ensures r.flash[i] == LogicalByte(c, i)
    {
      BlockBelow(c, i);
      assert CleanByte(r, i) && LogicalByte(r, i) == Logical(r)[i] == Logical(c)[i];
    }
  }

  // ---------------------------------------------------------------------------- runs

  datatype Op = Read(offset: nat, count: nat) | Write(offset: nat, src: seq<byte>) | Sync(faults: Faults)

  /** A request within the first k blocks that does not carry. */
  ghost predicate Admissible(blockSize: nat, k: nat, op: Op)
    requires blockSize > 0
  {
    match op
    case Read(offset, count) => offset + count <= blockSize * k && NoCarry(blockSize, offset, count)
    case Write(offset, src) => offset + |src| <= blockSize * k && NoCarry(blockSize, offset, |src|)
    case Sync(_) => true
  }

  ghost predicate AllAdmissible(blockSize: nat, k: nat, ops: seq<Op>)
    requires blockSize > 0
  {
    forall i :: 0 <= i < |ops| ==> Admissible(blockSize, k, ops[i])
  }

  predicate Succeeds(op: Op) {
    op.Sync? ==> op.faults == NO_FAULTS
  }

  /** One operation on the cached device, with the bytes it returns. */
  ghost function Step(c: Cache, k: nat, op: Op): (Cache, seq<byte>)
    requires c.Valid() && Sound(c, k) && Admissible(c.blockSize, k, op)
  {
    HomeOnDevice(c, k);
    match op
    case Read(offset, count) => ReadBlock(c, offset, count)
    case Write(offset, src) => (WriteBlock(c, offset, src), [])
    case Sync(faults) => (Flush(c, faults), [])
  }

  /** The same operation on a plain array. */
  function FlatStep(s: seq<byte>, op: Op): (seq<byte>, seq<byte>) {
    match op
    case Read(offset, count) => (s, if offset + count <= |s| then s[offset..offset + count] else [])
    case Write(offset, src) => (Splice(s, offset, src), [])
    case Sync(_) => (s, [])
  }

  function FlatRun(s: seq<byte>, ops: seq<Op>): (seq<byte>, seq<seq<byte>>)
    decreases |ops|
  {
    if ops == [] then (s, [])
    else
      var (s1, out) := FlatStep(s, ops[0]);
      var (s2, outs) := FlatRun(s1, ops[1..]);
      (s2, [out] + outs)
  }

  /** The blocks written since the last flush. */
  ghost function Pending(blockSize: nat, total: nat, before: set<nat>, op: Op): set<nat>
    requires blockSize > 0
  {
    match op
    case Read(_, _) => before
    case Write(offset, src) => before + set p: nat | p < total && Touches(blockSize, offset, |src|, p)
    case Sync(_) => {}
  }

  ghost function PendingAfter(blockSize: nat, total: nat, before: set<nat>, ops: seq<Op>): set<nat>
    requires blockSize > 0
    decreases |ops|
  {
    if ops == [] then before else PendingAfter(blockSize, total, Pending(blockSize, total, before, ops[0]), ops[1..])
  }

  lemma StepRefines(c: Cache, k: nat, op: Op)
    requires c.Valid() && Sound(c, k) && Admissible(c.blockSize, k, op)
    ensures var (r, out) := Step(c, k, op);
            && r.Valid() && Sound(r, k) && r.blockSize == c.blockSize && r.total == c.total && r.blocks == c.blocks
            && (Logical(r), out) == FlatStep(Logical(c), op)
  {
    HomeOnDevice(c, k);
    match op
    case Read(offset, count) => ReadRefines(c, k, offset, count);
    case Write(offset, src) => WriteRefines(c, k, offset, src);
    case Sync(faults) => FlushKeepsLogical(c, k, faults);
  }

  lemma StepTracks(c: Cache, k: nat, op: Op)
    requires c.Valid() && Coherent(c, k) && Admissible(c.blockSize, k, op) && Succeeds(op)
    ensures var r := Step(c, k, op).0;
            r.Valid() && Coherent(r, k) && Raised(r.dirty) == Pending(c.blockSize, c.total, Raised(c.dirty), op)
  {
    HomeOnDevice(c, k);
    match op
    case Read(offset, count) => ReadRefines(c, k, offset, count);
    case Write(offset, src) =>
      WriteRefines(c, k, offset, src);
      forall p: nat | p < c.total
        ensures WriteBlock(c, offset, src).dirty[p] <==> c.dirty[p] || Touches(c.blockSize, offset, |src|, p)
      {
        WriteMarks(c, offset, |src|, p);
      }
    case Sync(faults) => FlushRefines(c, k);
  }

  ghost function Run(c: Cache, k: nat, ops: seq<Op>): (Cache, seq<seq<byte>>)
    requires c.Valid() && Sound(c, k) && AllAdmissible(c.blockSize, k, ops)
    decreases |ops|
  {
    if ops == [] then (c, [])
    else
      StepRefines(c, k, ops[0]);
      var (c1, out) := Step(c, k, ops[0]);
      var (c2, outs) := Run(c1, k, ops[1..]);
      (c2, [out] + outs)
  }

  /** Every sequence of reads, writes and flushes within the first k blocks returns what a plain array
      would return and ends with the array's contents, whichever erases fail and whatever
      programming misses. */
  lemma {:induction false} RunRefinesArray(c: Cache, k: nat, ops: seq<Op>)
    requires c.Valid() && Sound(c, k) && AllAdmissible(c.blockSize, k, ops)
    ensures var (r, outs) := Run(c, k, ops);
            r.Valid() && Sound(r, k) && (Logical(r), outs) == FlatRun(Logical(c), ops)
    decreases |ops|
  {
    if ops != [] {
      StepRefines(c, k, ops[0]);
      RunRefinesArray(Step(c, k, ops[0]).0, k, ops[1..]);
    }
  }

  /** If no flush fails the device stays coherent, and its dirty blocks are those written since the
      last flush. */
  lemma {:induction false} RunTracksDirty(c: Cache, k: nat, ops: seq<Op>)
    requires c.Valid() && Coherent(c, k) && AllAdmissible(c.blockSize, k, ops) && forall i :: 0 <= i < |ops| ==> Succeeds(ops[i])
    ensures var r := Run(c, k, ops).0;
            r.Valid() && Coherent(r, k) && Raised(r.dirty) == PendingAfter(c.blockSize, c.total, Raised(c.dirty), ops)
    decreases |ops|
  {
    if ops != [] {
      StepRefines(c, k, ops[0]);
      StepTracks(c, k, ops[0]);
      RunTracksDirty(Step(c, k, ops[0]).0, k, ops[1..]);
    }
  }

  /** The first k blocks are at home exactly if no bad block is among them. */
  lemma HomeIff(c: Cache, k: nat, bad: seq<nat>)
    requires c.Valid() && Scanned(bad, c.total) && c.blocks == GoodBlocks(bad, c.total) && k <= |c.blocks|
    ensures HomeUpTo(c, k) <==> forall b :: b in bad ==> b >= k
  {
    MapIsBijection(bad, c.total);
    if k > 0 {
      IdentityUpTo(bad, c.total, k - 1);
    }
  }

  lemma EmptyIsClean(c: Cache, k: nat)
    requires c.Valid() && forall p :: 0 <= p < c.total ==> !c.inCache[p] && !c.dirty[p]
    ensures Logical(c) == c.flash && (Coherent(c, k) <==> HomeUpTo(c, k))
  {
    forall i: nat | i < |c.data|
      ensures CleanByte(c, i) && LogicalByte(c, i) == c.flash[i]
    {
      BlockBelow(c, i);
    }
  }

  /** A device just initialized holds what its flash holds, and serves the first k blocks exactly if
      no bad block is among them. */
  lemma FreshIsCoherent(c: Cache, k: nat, bad: seq<nat>)
    requires c.Valid() && forall p :: 0 <= p < c.total ==> !c.inCache[p] && !c.dirty[p]
    requires Scanned(bad, c.total) && c.blocks == GoodBlocks(bad, c.total) && k <= |c.blocks|
    ensures Logical(c) == c.flash
    ensures Coherent(c, k) <==> forall b :: b in bad ==> b >= k
  {
    EmptyIsClean(c, k);
    HomeIff(c, k, bad);
  }

  /** A flush after any such run leaves the array's contents in the flash, and erases exactly the
      blocks written since the flush before, each once. */
  lemma FlushAfterRun(c: Cache, k: nat, ops: seq<Op>)
    requires c.Valid() && Coherent(c, k) && AllAdmissible(c.blockSize, k, ops) && forall i :: 0 <= i < |ops| ==> Succeeds(ops[i])
    ensures var r := Run(c, k, ops).0; r.Valid() && Coherent(r, k)
    ensures var r := Run(c, k, ops).0;
            && Flush(r, NO_FAULTS).flash == FlatRun(Logical(c), ops).0
            && Flush(r, NO_FAULTS).erased == r.erased + Waiting(r, 0)
            && NoRepeats(Waiting(r, 0))
            && Elements(Waiting(r, 0)) == PendingAfter(c.blockSize, c.total, Raised(c.dirty), ops)
  {
    RunRefinesArray(c, k, ops);
    RunTracksDirty(c, k, ops);
    FlushRefines(Run(c, k, ops).0, k);
  }
}
