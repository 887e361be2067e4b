/** Restarting boot sets: which machines go back to Init for a mask of requested harts. */
module BootSets {
  import opened BootImage
  import opened BootMachine

  /** s is the lowest-numbered requested hart of its entry-point class. */
  ghost predicate Leads(img: Image, mask: set<nat>, s: nat)
    requires img.Valid()
  {
    IsHart(s) && s in mask && forall t: nat :: IsHart(t) && t in mask && SameEntry(img, t, s) ==> s <= t
  }

  /** A leader below n with chunks of its own shares the entry point of hart g. */
  ghost predicate Chosen(img: Image, mask: set<nat>, n: nat, g: nat)
    requires img.Valid() && IsHart(g)
  {
    exists s: nat :: s < n && Leads(img, mask, s) && img.Hart(s).numChunks != 0 && SameEntry(img, s, g)
  }

  ghost function ClassesBelow(img: Image, mask: set<nat>, n: nat): set<nat>
    requires img.Valid()
  {
    set g: nat | 1 <= g <= 4 && Chosen(img, mask, n, g)
  }

  /** The union of the entry-point classes whose lowest-numbered requested hart has chunks. */
  ghost function ToRestart(img: Image, mask: set<nat>): set<nat>
    requires img.Valid()
  {
    ClassesBelow(img, mask, 5)
  }

  /** What is left of the request when sources below n have been served. */
  ghost function LeftBelow(img: Image, mask: set<nat>, n: nat): set<nat>
    requires img.Valid()
  {
    set t | t in mask && !(IsHart(t) && exists s: nat :: IsHart(s) && s < n && s in mask && SameEntry(img, s, t))
  }

  ghost function Class(img: Image, s: nat): set<nat>
    requires img.Valid() && IsHart(s)
  {
    set g: nat | 1 <= g <= 4 && SameEntry(img, s, g)
  }

  /** The machines of the harts in the set restarted, all others as they were. */
  ghost function RestartedSet(machines: seq<Machine>, chosen: set<nat>): (r: seq<Machine>)
    requires |machines| == 4
    ensures |r| == 4
  {
    seq(4, k requires 0 <= k < 4 => if k + 1 in chosen then Restarted(machines[k]) else machines[k])
  }

  /** The machines before and after a request that names the given harts: those in the hand-over state
      take no notice, the others are in Init, not loaded and otherwise as they were. */
  ghost predicate BackInInit(before: seq<Machine>, after: seq<Machine>, named: set<nat>) {
    && |before| == |after| == 4
    && forall k :: 0 <= k < 4 ==>
         after[k] == (if k + 1 in named && before[k].state != OpenSbiInit
                      then before[k].(state := Init, loaded := false) else before[k])
  }

  lemma RequestPutsBack(machines: seq<Machine>, named: set<nat>)
    requires |machines| == 4
    ensures BackInInit(machines, RestartedSet(machines, named), named)
  {
  }

  ghost predicate PairwiseDisjoint(sets: seq<set<nat>>) {
    forall i, j :: 0 <= i < j < |sets| ==> sets[i] !! sets[j]
  }

  /** Disjoint sets whose union is the given one. */
  ghost predicate Partitions(sets: seq<set<nat>>, all: set<nat>) {
    && PairwiseDisjoint(sets)
    && (forall k :: 0 <= k < |sets| ==> sets[k] <= all)
    && (forall g :: g in all ==> exists k :: 0 <= k < |sets| && g in sets[k])
  }

  lemma PartitionsExtend(sets: seq<set<nat>>, all: set<nat>, more: set<nat>)
    requires Partitions(sets, all) && more !! all
    ensures Partitions(sets + [more], all + more)
  {
    var r := sets + [more];
    forall g | g in all + more
      ensures exists k :: 0 <= k < |r| && g in r[k]
    {
      if g in more {
        assert r[|sets|] == more;
      } else {
        var k :| 0 <= k < |sets| && g in sets[k];
        assert r[k] == sets[k];
      }
    }
  }

  /** Serving source s removes its class from what is left. */
  lemma LeftAfter(img: Image, mask: set<nat>, s: nat)
    requires img.Valid() && IsHart(s)
    ensures LeftBelow(img, mask, s + 1) == if s in LeftBelow(img, mask, s) then LeftBelow(img, mask, s) - Class(img, s) else LeftBelow(img, mask, s)
  {
  }

  /** A source is still left exactly if it leads its class. */
  lemma LeftLeads(img: Image, mask: set<nat>, s: nat)
    requires img.Valid() && IsHart(s)
    ensures s in LeftBelow(img, mask, s) <==> Leads(img, mask, s)
  {
  }

  lemma ClassesAfter(img: Image, mask: set<nat>, s: nat)
    requires img.Valid() && IsHart(s)
    ensures ClassesBelow(img, mask, s + 1) ==
            ClassesBelow(img, mask, s) + if Leads(img, mask, s) && img.Hart(s).numChunks != 0 then Class(img, s) else {}
  {
  }

  /** The class of a new leader has not been restarted before. */
  lemma LeaderIsNew(img: Image, mask: set<nat>, s: nat)
    requires img.Valid() && Leads(img, mask, s)
    ensures Class(img, s) !! ClassesBelow(img, mask, s)
  {
  }

  /** One source of the request: everything the loop needs to go on. */
  lemma SourceServed(img: Image, mask: set<nat>, s: nat)
    requires img.Valid() && IsHart(s)
    ensures var left, done := LeftBelow(img, mask, s), ClassesBelow(img, mask, s);
            && LeftBelow(img, mask, s + 1) == (if s in left then left - Class(img, s) else left)
            && ClassesBelow(img, mask, s + 1) == (if s in left && img.Hart(s).numChunks != 0 then done + Class(img, s) else done)
            && (s in left ==> Class(img, s) !! done)
    ensures s in Class(img, s)
  {
    LeftAfter(img, mask, s);
    LeftLeads(img, mask, s);
    ClassesAfter(img, mask, s);
    if Leads(img, mask, s) {
      LeaderIsNew(img, mask, s);
    }
  }

  lemma RestartedTwice(machines: seq<Machine>, a: set<nat>, b: set<nat>)
    requires |machines| == 4
    ensures RestartedSet(RestartedSet(machines, a), b) == RestartedSet(machines, a + b)
  {
  }

  /** A single requested hart restarts its whole class if it has chunks, and nothing otherwise. */
  lemma SingleRequest(img: Image, s: nat)
    requires img.Valid() && IsHart(s)
    ensures ToRestart(img, {s}) == if img.Hart(s).numChunks != 0 then Class(img, s) else {}
  {
    assert Leads(img, {s}, s);
  }

  const ALL_HARTS: set<nat> := {1, 2, 3, 4}

  /** The lowest-numbered hart of every entry-point class has chunks. */
  ghost predicate AllLed(img: Image)
    requires img.Valid()
  {
    forall s: nat :: Leads(img, ALL_HARTS, s) ==> img.Hart(s).numChunks != 0
  }

  /** The lowest-numbered hart with the same entry point. */
  lemma LeaderOf(img: Image, g: nat) returns (s: nat)
    requires img.Valid() && IsHart(g)
    ensures Leads(img, ALL_HARTS, s) && SameEntry(img, s, g)
  {
    s := 1;
    while !SameEntry(img, s, g)
      invariant 1 <= s <= g && forall t: nat :: IsHart(t) && SameEntry(img, t, g) ==> s <= t
      decreases g - s
    {
      s := s + 1;
    }
  }

  lemma LedIsChosen(img: Image, g: nat)
    requires img.Valid() && IsHart(g) && AllLed(img)
    ensures g in ToRestart(img, ALL_HARTS)
  {
    var s := LeaderOf(img, g);
  }

  lemma UnledIsNotChosen(img: Image, s: nat)
    requires img.Valid() && Leads(img, ALL_HARTS, s) && img.Hart(s).numChunks == 0
    ensures !Chosen(img, ALL_HARTS, 5, s)
  {
  }

  lemma AllChosen(img: Image)
    requires img.Valid() && AllLed(img)
    ensures ToRestart(img, ALL_HARTS) == ALL_HARTS
  {
    forall g: nat | IsHart(g)
      ensures g in ToRestart(img, ALL_HARTS)
    {
      LedIsChosen(img, g);
    }
  }

  lemma NotAllChosen(img: Image)
    requires img.Valid() && !AllLed(img)
    ensures ToRestart(img, ALL_HARTS) != ALL_HARTS
  {
    var s: nat :| Leads(img, ALL_HARTS, s) && img.Hart(s).numChunks == 0;
    UnledIsNotChosen(img, s);
    assert s !in ToRestart(img, ALL_HARTS);
  }

  /** A request for all harts restarts them all exactly if every class is led by a hart with chunks. */
  lemma AllRestartedIff(img: Image)
    requires img.Valid()
    ensures ToRestart(img, ALL_HARTS) <= ALL_HARTS
    ensures ToRestart(img, ALL_HARTS) == ALL_HARTS <==> AllLed(img)
  {
    if AllLed(img) {
      AllChosen(img);
    } else {
      NotAllChosen(img);
    }
  }

  /** Restart requests for the harts of the set numbered 1 to n. */
  ghost function Requests(harts: set<nat>, n: nat): (r: seq<Action>)
    requires n <= 4
    ensures forall k :: 0 <= k < |r| ==> Proper(r[k])
  {
    if n == 0 then [] else Requests(harts, n - 1) + if n in harts then [Restart(n)] else []
  }

  /** The first n harts of the set. */
  ghost function UpTo(harts: set<nat>, n: nat): set<nat> {
    set h | h in harts && h <= n
  }

  lemma OneMoreRestarted(machines: seq<Machine>, harts: set<nat>, n: nat)
    requires |machines| == 4 && IsHart(n)
    ensures var before := RestartedSet(machines, UpTo(harts, n - 1));
            RestartedSet(machines, UpTo(harts, n)) == if n in harts then before[n - 1 := Restarted(before[n - 1])] else before
  {
  }

  lemma {:induction false} RequestsRestart(img: Image, sys: System, harts: set<nat>, n: nat)
    requires img.Valid() && sys.Valid() && n <= 4
    ensures var r := RunAll(img, sys, Requests(harts, n));
            r == System(RestartedSet(sys.machines, UpTo(harts, n)), sys.mem, sys.event)
  {
    if n == 0 {
      assert RestartedSet(sys.machines, UpTo(harts, n)) == sys.machines;
    } else {
      var before, all := Requests(harts, n - 1), Requests(harts, n);
      RequestsRestart(img, sys, harts, n - 1);
      OneMoreRestarted(sys.machines, harts, n);
      if n in harts {
        assert all[..|all| - 1] == before && all[|all| - 1] == Restart(n);
      } else {
        assert all == before;
      }
    }
  }
}
