/** The logical-to-physical block map of the QSPI flash driver, which steps over bad blocks. */
module BadBlocks {
  import opened Bits

  /** A scan result: block numbers in increasing order. */
  ghost predicate Scanned(bad: seq<nat>, total: nat) {
    && (forall i, j :: 0 <= i < j < |bad| ==> bad[i] < bad[j])
    && (forall i :: 0 <= i < |bad| ==> bad[i] < total)
  }

  /** The good blocks below n, in order. */
  function GoodBlocks(bad: seq<nat>, n: nat): (good: seq<nat>)
    ensures |good| <= n
  {
    if n == 0 then [] else GoodBlocks(bad, n - 1) + (if n - 1 in bad then [] else [n - 1])
  }

  /** How many of the bad blocks lie below n. */
  ghost function BadBelow(bad: seq<nat>, n: nat): nat {
    n - |GoodBlocks(bad, n)|
  }

  lemma {:induction false} GoodBlocksAre(bad: seq<nat>, n: nat)
    ensures var g := GoodBlocks(bad, n);
            && (forall i, j :: 0 <= i < j < |g| ==> g[i] < g[j])
            && (forall p: nat :: p in g <==> p < n && p !in bad)
  {
    if n > 0 {
      GoodBlocksAre(bad, n - 1);
      var g := GoodBlocks(bad, n - 1);
      forall i | 0 <= i < |g|
        ensures g[i] < n - 1
      {
        assert g[i] in g;
      }
    }
  }

  lemma {:induction false} GoodBlocksPrefix(bad: seq<nat>, m: nat, n: nat)
    requires m <= n
    ensures GoodBlocks(bad, m) <= GoodBlocks(bad, n)
    decreases n
  {
    if m < n {
      GoodBlocksPrefix(bad, m, n - 1);
    }
  }

  /** Scanning the physical blocks with a cursor into the bad list. */
  lemma {:induction false} CursorInvariant(bad: seq<nat>, n: nat, total: nat)
    requires Scanned(bad, total) && n <= total
    ensures BadBelow(bad, n) <= |bad|
    ensures forall i :: 0 <= i < |bad| ==> (bad[i] < n <==> i < BadBelow(bad, n))
    decreases n
  {
    if n > 0 {
      CursorInvariant(bad, n - 1, total);
      var k := BadBelow(bad, n - 1);
      if n - 1 in bad {
        var i :| 0 <= i < |bad| && bad[i] == n - 1;
        assert k <= i && bad[k] <= bad[i];
      } else if k < |bad| {
        assert bad[k] >= n - 1 && bad[k] in bad;
      }
    }
  }

  /** Maps the good blocks below blockCount; the bad list may also name blocks above it. */
  method BuildBadBlockMap(bad: seq<nat>, total: nat, blockCount: nat, map': array<nat>)
    requires Scanned(bad, total) && blockCount <= total <= map'.Length
    modifies map'
    ensures map'[..] == GoodBlocks(bad, blockCount) + old(map'[..])[|GoodBlocks(bad, blockCount)|..]
  {
    var badBlockIndex, logical, badBlocksRemaining, physical := 0, 0, |bad|, 0;
    ghost var before := map'[..];
    while physical < blockCount
      invariant 0 <= physical <= blockCount && logical == |GoodBlocks(bad, physical)|
      invariant badBlockIndex == BadBelow(bad, physical) <= |bad| && badBlocksRemaining == |bad| - badBlockIndex
      invariant Mapped(bad, before, physical, map'[..])
    {
      NextBlock(bad, physical, total);
      MappedStep(bad, before, physical, map'[..]);
      if badBlocksRemaining != 0 && bad[badBlockIndex] == physical {
        badBlockIndex, badBlocksRemaining := badBlockIndex + 1, badBlocksRemaining - 1;
      } else {
        map'[logical] := physical;
        logical := logical + 1;
      }
      physical := physical + 1;
    }
  }

  /** The map after the first n physical blocks have been placed. */
  ghost predicate Mapped(bad: seq<nat>, before: seq<nat>, n: nat, m: seq<nat>) {
    |GoodBlocks(bad, n)| <= |before| && m == GoodBlocks(bad, n) + before[|GoodBlocks(bad, n)|..]
  }

  lemma MappedStep(bad: seq<nat>, before: seq<nat>, n: nat, m: seq<nat>)
    requires n < |before| && Mapped(bad, before, n, m)
    ensures |m| == |before| && |GoodBlocks(bad, n)| < |m|
    ensures n in bad ==> Mapped(bad, before, n + 1, m)
    ensures n !in bad ==> Mapped(bad, before, n + 1, m[|GoodBlocks(bad, n)| := n])
  {
    var g := GoodBlocks(bad, n);
    if n !in bad {
      assert GoodBlocks(bad, n + 1) == g + [n];
      assert (g + before[|g|..])[|g| := n] == (g + [n]) + before[|g| + 1..];
    } else {
      assert GoodBlocks(bad, n + 1) == g;
    }
  }

  /** The cursor is on the next bad block: the block is bad exactly if the cursor shows it. */
  lemma NextBlock(bad: seq<nat>, n: nat, total: nat)
    requires Scanned(bad, total) && n < total
    ensures BadBelow(bad, n) <= |bad|
    ensures n in bad <==> BadBelow(bad, n) < |bad| && bad[BadBelow(bad, n)] == n
    ensures BadBelow(bad, n + 1) == BadBelow(bad, n) + (if n in bad then 1 else 0) <= |bad|
  {
    CursorInvariant(bad, n, total);
    CursorInvariant(bad, n + 1, total);
  }

  /** For an increasing in-range bad list the map is the order-preserving bijection from the first
      total - |bad| logical blocks onto the good physical blocks. */
  lemma MapIsBijection(bad: seq<nat>, total: nat)
    requires Scanned(bad, total)
    ensures var g := GoodBlocks(bad, total);
            && |g| == total - |bad|
            && (forall i, j :: 0 <= i < j < |g| ==> g[i] < g[j])
            && (forall p: nat :: p in g <==> p < total && p !in bad)
  {
    GoodBlocksAre(bad, total);
    CursorInvariant(bad, total, total);
    if |bad| > 0 {
      assert bad[|bad| - 1] < total;
    }
  }

  // ---------------------------------------------------------------------- addresses

  function PhysicalAddress(map': seq<nat>, blockSize: nat, addr: nat): nat
    requires blockSize > 0 && addr / blockSize < |map'|
  {
    map'[addr / blockSize] * blockSize + addr % blockSize
  }

  lemma PhysicalParts(map': seq<nat>, blockSize: nat, addr: nat)
    requires blockSize > 0 && addr / blockSize < |map'|
    ensures PhysicalAddress(map', blockSize, addr) / blockSize == map'[addr / blockSize]
    ensures PhysicalAddress(map', blockSize, addr) % blockSize == addr % blockSize
  {
    DivModUnique(PhysicalAddress(map', blockSize, addr), blockSize, map'[addr / blockSize], addr % blockSize);
  }

  lemma DivModDetermine(a: nat, b: nat, m: nat)
    requires m > 0 && a / m == b / m && a % m == b % m
    ensures a == b
  {
  }

  /** An address keeps its offset in the block and never lands in a bad block. */
  lemma PhysicalAddressSound(bad: seq<nat>, total: nat, blockSize: nat, a: nat)
    requires Scanned(bad, total) && blockSize > 0 && a / blockSize < |GoodBlocks(bad, total)|
    ensures var x := PhysicalAddress(GoodBlocks(bad, total), blockSize, a);
            x % blockSize == a % blockSize && x / blockSize !in bad && x / blockSize < total
  {
    var g := GoodBlocks(bad, total);
    GoodBlocksAre(bad, total);
    PhysicalParts(g, blockSize, a);
    assert g[a / blockSize] in g;
  }

  /** Distinct logical addresses have distinct physical addresses. */
  lemma PhysicalAddressInjective(bad: seq<nat>, total: nat, blockSize: nat, a: nat, b: nat)
    requires Scanned(bad, total) && blockSize > 0
    requires a / blockSize < |GoodBlocks(bad, total)| && b / blockSize < |GoodBlocks(bad, total)|
    requires PhysicalAddress(GoodBlocks(bad, total), blockSize, a) == PhysicalAddress(GoodBlocks(bad, total), blockSize, b)
    ensures a == b
  {
    var g := GoodBlocks(bad, total);
    GoodBlocksAre(bad, total);
    PhysicalParts(g, blockSize, a);
    PhysicalParts(g, blockSize, b);
    SameIndex(g, a / blockSize, b / blockSize);
    DivModDetermine(a, b, blockSize);
  }

  lemma SameIndex(g: seq<nat>, i: nat, j: nat)
    requires i < |g| && j < |g| && g[i] == g[j] && forall k, l :: 0 <= k < l < |g| ==> g[k] < g[l]
    ensures i == j
  {
  }

  /** The map is the identity on blocks 0 .. l exactly when no bad block is at or below l. */
  lemma IdentityUpTo(bad: seq<nat>, total: nat, l: nat)
    requires Scanned(bad, total) && l < |GoodBlocks(bad, total)|
    ensures (forall k :: 0 <= k <= l ==> GoodBlocks(bad, total)[k] == k) <==> (forall b :: b in bad ==> b > l)
  {
    var g := GoodBlocks(bad, total);
    GoodBlocksAre(bad, total);
    if forall k :: 0 <= k <= l ==> g[k] == k {
      forall k: nat | k <= l
        ensures k !in bad
      {
        assert g[k] in g;
      }
    }
    if forall b :: b in bad ==> b > l {
      IdentityPrefix(bad, l + 1);
      GoodBlocksPrefix(bad, l + 1, total);
    }
  }

  lemma {:induction false} IdentityPrefix(bad: seq<nat>, n: nat)
    requires forall b :: b in bad ==> b >= n
    ensures |GoodBlocks(bad, n)| == n && forall k :: 0 <= k < n ==> GoodBlocks(bad, n)[k] == k
  {
    if n > 0 {
      IdentityPrefix(bad, n - 1);
    }
  }

  /** The driver takes a physical number above the reduced block count for corruption and rebuilds
      the map over the reduced count; since that only rewrites a prefix with what was there, the
      lookup is unharmed. */
  method LogicalToPhysicalBlock(bad: seq<nat>, total: nat, blockCount: nat, map': array<nat>, logical: nat) returns (result: nat)
    requires Scanned(bad, total) && total <= map'.Length && blockCount == total - |bad| && logical < |GoodBlocks(bad, total)|
    requires GoodBlocks(bad, total) <= map'[..]
    modifies map'
    ensures map'[..] == old(map'[..]) && result == GoodBlocks(bad, total)[logical]
  {
    MapIsBijection(bad, total);
    result := map'[logical];
    if result > blockCount {
      GoodBlocksPrefix(bad, blockCount, total);
      BuildBadBlockMap(bad, total, blockCount, map');
      result := map'[logical];
    }
  }
}
