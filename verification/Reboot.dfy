/** Ledger domains after any registrations, and the watchdog reboot that follows them. */
module Reboot {
  import opened BootImage
  import opened Ledger

  // ----------------------------------------------------------------------- domains

  ghost predicate Targets(ts: seq<nat>) {
    forall k :: 0 <= k < |ts| ==> IsHart(ts[k])
  }

  /** Machines register one after the other, in any order and any number of times. */
  ghost function After(img: Image, b: Book, ts: seq<nat>): (r: Book)
    requires img.Valid() && b.Valid() && Targets(ts)
    ensures r.Valid()
    decreases |ts|
  {
    if ts == [] then b else Registered(img, After(img, b, ts[..|ts| - 1]), ts[|ts| - 1])
  }

  /** As at start-up: nobody owns a hart. */
  ghost predicate Blank(b: Book) {
    b.Valid() && forall p :: 0 <= p < 5 ==> b.entries[p].owner == 0 && !b.entries[p].allowCold && b.masks[p] == {}
  }

  /** The hart stays out of all domains: it skips OpenSBI, or no primary hart shares its entry point. */
  ghost predicate Unowned(img: Image, a: nat)
    requires img.Valid() && IsHart(a)
  {
    img.Hart(a).skipOpenSbi || forall t: nat :: IsHart(t) && SameEntry(img, t, a) ==> !img.Hart(t).Primary()
  }

  ghost function Owner(img: Image, b: Book, ts: seq<nat>, a: nat): nat
    requires img.Valid() && b.Valid() && Targets(ts) && IsHart(a)
  {
    After(img, b, ts).entries[a].owner
  }

  /** t is the last of its class to register as a primary hart. */
  ghost predicate LastOf(img: Image, ts: seq<nat>, a: nat, t: nat)
    requires img.Valid() && Targets(ts) && IsHart(a)
  {
    exists k :: 0 <= k < |ts| && ts[k] == t && img.Hart(t).Primary() && SameEntry(img, t, a)
                && forall j :: k < j < |ts| ==> !(img.Hart(ts[j]).Primary() && SameEntry(img, ts[j], a))
  }

  /** A hart's owner is a primary hart of its class, the last one to register. */
  lemma {:induction false} OwnerInClass(img: Image, b: Book, ts: seq<nat>, a: nat)
    requires img.Valid() && Blank(b) && Targets(ts) && IsHart(a)
    ensures var w := Owner(img, b, ts, a);
            && (w != 0 ==> !img.Hart(a).skipOpenSbi && LastOf(img, ts, a, w))
            && (w == 0 && !img.Hart(a).skipOpenSbi ==>
                forall t :: t in ts && SameEntry(img, t, a) ==> !img.Hart(t).Primary())
    decreases |ts|
  {
    if ts != [] {
      var n := |ts| - 1;
      OwnerInClass(img, b, ts[..n], a);
      assert ts == ts[..n] + [ts[n]];
    }
  }

  lemma LastUnique(img: Image, ts: seq<nat>, a: nat, b: nat, t: nat, u: nat)
    requires img.Valid() && Targets(ts) && IsHart(a) && IsHart(b) && SameEntry(img, a, b)
    requires LastOf(img, ts, a, t) && LastOf(img, ts, b, u)
    ensures t == u
  {
  }

  ghost predicate AllRegistered(img: Image, ts: seq<nat>)
    requires img.Valid()
  {
    Targets(ts) && forall t: nat :: IsHart(t) && img.Hart(t).Primary() ==> t in ts
  }

  lemma UnownedIff(img: Image, b: Book, ts: seq<nat>, a: nat)
    requires img.Valid() && Blank(b) && AllRegistered(img, ts) && IsHart(a)
    ensures Owner(img, b, ts, a) == 0 <==> Unowned(img, a)
  {
    OwnerInClass(img, b, ts, a);
  }

  /** The image alone decides the domains: owned harts share one exactly if they share an entry
      point, and all unowned harts share one. */
  ghost predicate Together(img: Image, a: nat, c: nat)
    requires img.Valid() && IsHart(a) && IsHart(c)
  {
    (Unowned(img, a) && Unowned(img, c)) || (!Unowned(img, a) && !Unowned(img, c) && SameEntry(img, a, c))
  }

  lemma SameDomainIff(img: Image, b: Book, ts: seq<nat>, a: nat, c: nat)
    requires img.Valid() && Blank(b) && AllRegistered(img, ts) && IsHart(a) && IsHart(c)
    ensures Owner(img, b, ts, a) == Owner(img, b, ts, c) <==> Together(img, a, c)
  {
    UnownedIff(img, b, ts, a);
    UnownedIff(img, b, ts, c);
    OwnerInClass(img, b, ts, a);
    OwnerInClass(img, b, ts, c);
    if !Unowned(img, a) && !Unowned(img, c) && SameEntry(img, a, c) {
      LastUnique(img, ts, a, c, Owner(img, b, ts, a), Owner(img, b, ts, c));
    }
  }

  /** Once every primary machine has registered, harts that use OpenSBI and whose classes have a
      primary hart are in one domain exactly if their entry points are equal. */
  lemma DomainsAreClasses(img: Image, b: Book, ts: seq<nat>, a: nat, c: nat, ta: nat, tc: nat)
    requires img.Valid() && Blank(b) && AllRegistered(img, ts) && IsHart(a) && IsHart(c)
    requires !img.Hart(a).skipOpenSbi && IsHart(ta) && img.Hart(ta).Primary() && SameEntry(img, ta, a)
    requires !img.Hart(c).skipOpenSbi && IsHart(tc) && img.Hart(tc).Primary() && SameEntry(img, tc, c)
    ensures Owner(img, b, ts, a) == Owner(img, b, ts, c) <==> img.Hart(a).entryPoint == img.Hart(c).entryPoint
  {
    SameDomainIff(img, b, ts, a, c);
  }

  /** Each mask collected is empty or the class; a hart has permission for a cold reboot exactly if it
      has registered as a boot hart and its flag says so. */
  lemma {:induction false} PermissionFollowsFlag(img: Image, b: Book, ts: seq<nat>, a: nat)
    requires img.Valid() && Blank(b) && Targets(ts) && IsHart(a)
    ensures var r := After(img, b, ts);
            var registered := a in ts && img.Hart(a).Primary() && !img.Hart(a).skipOpenSbi;
            && r.entries[a].allowCold == (registered && img.Hart(a).allowCold)
            && r.masks[a] == (if a in ts && img.Hart(a).Primary() then BootSetMask(img, a) else {})
            && (registered ==> r.entries[a].hartMask == BootSetMask(img, a))
    decreases |ts|
  {
    if ts != [] {
      var n := |ts| - 1;
      PermissionFollowsFlag(img, b, ts[..n], a);
      assert ts == ts[..n] + [ts[n]];
    }
  }

  /** The hart has registered as a boot hart: it is primary and goes through OpenSBI. */
  ghost predicate RegisteredBoot(img: Image, ts: seq<nat>, a: nat)
    requires img.Valid() && IsHart(a)
  {
    a in ts && img.Hart(a).Primary() && !img.Hart(a).skipOpenSbi
  }

  /** Some primary hart has registered. */
  ghost predicate AnyPrimary(img: Image, ts: seq<nat>)
    requires img.Valid() && Targets(ts)
  {
    exists k :: 0 <= k < |ts| && img.Hart(ts[k]).Primary()
  }

  lemma AnyPrimaryMore(img: Image, ts: seq<nat>, t: nat)
    requires img.Valid() && Targets(ts) && IsHart(t)
    ensures AnyPrimary(img, ts + [t]) <==> AnyPrimary(img, ts) || img.Hart(t).Primary()
  {
    var all := ts + [t];
    if AnyPrimary(img, ts) {
      var k :| 0 <= k < |ts| && img.Hart(ts[k]).Primary();
      assert all[k] == ts[k];
    }
    if img.Hart(t).Primary() {
      assert all[|ts|] == t;
    }
  }

  /** The whole record of a hart after any registrations from an empty ledger, in terms of the image: a
      hart is pending exactly if it is owned, is off OpenSBI exactly if it skips it and some primary
      hart has registered, and a boot hart's start and permissions are those of its own image entry. */
  lemma {:induction false} RecordFollowsImage(img: Image, b: Book, ts: seq<nat>, a: nat)
    requires img.Valid() && b.Valid() && Targets(ts) && IsHart(a)
    requires forall p :: 0 <= p < 5 ==> b.entries[p] == Entry(0, false, true, 0, {}, false, false) && b.masks[p] == {}
    ensures var e, hart := After(img, b, ts).entries[a], img.Hart(a);
            && (e.pending <==> e.owner != 0)
            && (e.openSbi <==> !(hart.skipOpenSbi && AnyPrimary(img, ts)))
            && (e.nextAddr == if RegisteredBoot(img, ts, a) then hart.entryPoint else 0)
            && (e.allowCold <==> RegisteredBoot(img, ts, a) && hart.allowCold)
            && (e.allowWarm <==> RegisteredBoot(img, ts, a) && hart.allowWarm)
    decreases |ts|
  {
    if ts != [] {
      var n := |ts| - 1;
      var before, t := ts[..n], ts[n];
      RecordFollowsImage(img, b, before, a);
      assert ts == before + [t];
      AnyPrimaryMore(img, before, t);
    }
  }

  // ------------------------------------------------------------------------ reboot

  datatype Outcome = Cold | Warm(mask: set<nat>)

  datatype Config = Config(always: bool, allowed: bool)

  /** The harts in the domain of a hart whose watchdog fired. */
  ghost function DomainsMeeting(b: Book, fired: set<nat>): set<nat>
    requires b.Valid()
  {
    set p: nat | 1 <= p <= 4 && exists s: nat :: IsHart(s) && s in fired && b.entries[p].owner == b.entries[s].owner
  }

  ghost predicate GoesCold(b: Book, fired: set<nat>, config: Config)
    requires b.Valid()
  {
    config.always || (config.allowed && exists s: nat :: IsHart(s) && s in fired && b.entries[s].allowCold)
  }

  /** In terms of the image: a cold reboot by configuration, or because a fired hart has registered as a
      boot hart and its image entry allows it. */
  lemma ColdIff(img: Image, b: Book, ts: seq<nat>, fired: set<nat>, config: Config)
    requires img.Valid() && Blank(b) && Targets(ts)
    ensures GoesCold(After(img, b, ts), fired, config) <==>
            config.always
            || (config.allowed && exists s: nat :: IsHart(s) && s in fired && RegisteredBoot(img, ts, s) && img.Hart(s).allowCold)
  {
    forall s: nat | IsHart(s)
      ensures After(img, b, ts).entries[s].allowCold <==> RegisteredBoot(img, ts, s) && img.Hart(s).allowCold
    {
      PermissionFollowsFlag(img, b, ts, s);
    }
  }

  method DomainOf(ledger: HartLedger, source: nat) returns (mask: set<nat>)
    requires ledger.Valid() && IsHart(source)
    ensures mask == set p: nat | 1 <= p <= 4 && ledger.entries[p].owner == ledger.entries[source].owner
  {
    mask := {source};
    var peer: nat := 1;
    while peer <= 4
      invariant 1 <= peer <= 5
      invariant mask == {source} + set p: nat | 1 <= p < peer && ledger.entries[p].owner == ledger.entries[source].owner
    {
      if peer != source {
        if ledger.AreHartsInSameDomain(peer, source) {
          mask := mask + {peer};
        }
      }
      peer := peer + 1;
    }
  }

  /** A cold reboot does not return; it happens at the first fired hart that is allowed one. */
  method WatchdogReboot(ledger: HartLedger, fired: set<nat>, config: Config) returns (outcome: Outcome)
    requires ledger.Valid()
    ensures outcome.Cold? <==> GoesCold(ledger.Model(), fired, config)
    ensures outcome.Warm? ==> outcome.mask == DomainsMeeting(ledger.Model(), fired)
  {
    if config.always {
      return Cold;
    }
    ghost var b := ledger.Model();
    var restart: set<nat> := {};
    var source: nat := 1;
    while source <= 4
      invariant 1 <= source <= 5
      invariant restart == DomainsMeeting(b, set s | s in fired && s < source)
      invariant config.allowed ==> forall s: nat :: IsHart(s) && s in fired && s < source ==> !b.entries[s].allowCold
    {
      if source in fired {
        if config.allowed {
          if ledger.IsColdRebootAllowed(source) {
            return Cold;
          }
        }
        var domain := DomainOf(ledger, source);
        restart := restart + domain;
      }
      source := source + 1;
    }
    return Warm(restart);
  }

  // ------------------------------------------------------- agreement with boot sets

  /** What a warm restart covers, in terms of the image: boot sets for owned harts, but all unowned
      harts together. */
  lemma RestartCovers(img: Image, b: Book, ts: seq<nat>, fired: set<nat>, p: nat)
    requires img.Valid() && Blank(b) && AllRegistered(img, ts) && IsHart(p)
    ensures p in DomainsMeeting(After(img, b, ts), fired) <==>
            exists s: nat :: IsHart(s) && s in fired && Together(img, p, s)
  {
    forall s: nat | IsHart(s)
      ensures Owner(img, b, ts, p) == Owner(img, b, ts, s) <==> Together(img, p, s)
    {
      SameDomainIff(img, b, ts, p, s);
    }
    assert forall s: nat :: IsHart(s) ==> Owner(img, b, ts, s) == After(img, b, ts).entries[s].owner;
  }

  ghost predicate Fits(img: Image, s: nat)
    requires img.Valid() && IsHart(s)
  {
    forall p: nat :: IsHart(p) ==> if SameEntry(img, p, s) then Unowned(img, p) == Unowned(img, s) else !Unowned(img, p) || !Unowned(img, s)
  }

  /** A watchdog that fires on hart s restarts exactly the harts with its entry point if and only if
      these are all owned, or all unowned with no unowned hart anywhere else. */
  lemma RestartIsBootSetIff(img: Image, b: Book, ts: seq<nat>, s: nat)
    requires img.Valid() && Blank(b) && AllRegistered(img, ts) && IsHart(s)
    ensures (forall p: nat :: IsHart(p) ==> (p in DomainsMeeting(After(img, b, ts), {s}) <==> SameEntry(img, p, s))) <==> Fits(img, s)
  {
    forall p: nat | IsHart(p)
      ensures p in DomainsMeeting(After(img, b, ts), {s}) <==> Together(img, p, s)
    {
      RestartCovers(img, b, ts, {s}, p);
    }
  }
}
