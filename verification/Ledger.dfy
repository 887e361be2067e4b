/** The ledger of hart ownership, what registering boot harts does to it, and which harts a fired
    watchdog restarts. */
module Ledger {
  import opened BootImage

  /** What the ledger knows of one hart; openSbi is cleared when the hart is deregistered. */
  datatype Entry = Entry(
    owner: nat, pending: bool, openSbi: bool,
    nextAddr: nat, hartMask: set<nat>, allowCold: bool, allowWarm: bool)

  const EMPTY: Entry := Entry(0, false, true, 0, {}, false, false)

  /** Five entries, of which harts 1 to 4 are used, and the hart masks that the four boot machines
      collect. */
  datatype Book = Book(entries: seq<Entry>, masks: seq<set<nat>>) {
    ghost predicate Valid() {
      |entries| == 5 && |masks| == 5
    }
  }

  /** The harts of the boot set that go through OpenSBI. */
  ghost function BootSetMask(img: Image, t: nat): set<nat>
    requires img.Valid() && IsHart(t)
  {
    MaskBelow(img, t, 5)
  }

  ghost function MaskBelow(img: Image, t: nat, n: nat): set<nat>
    requires img.Valid() && IsHart(t) && n <= 5
  {
    set p: nat | 1 <= p < n && !img.Hart(p).skipOpenSbi && SameEntry(img, p, t)
  }

  // ------------------------------------------------------------------- registration

  function PeerEntry(img: Image, e: Entry, t: nat, p: nat): Entry
    requires |img.harts| == 4 && IsHart(t) && IsHart(p)
  {
    if !img.Hart(t).Primary() then e
    else if img.Hart(p).skipOpenSbi then e.(owner := 0, pending := false, openSbi := false)
    else if img.Hart(p).entryPoint == img.Hart(t).entryPoint then e.(owner := t, pending := true)
    else e
  }

  function BootEntry(img: Image, e: Entry, t: nat, mask: set<nat>): Entry
    requires |img.harts| == 4 && IsHart(t)
  {
    var hart := img.Hart(t);
    if hart.Primary() && !hart.skipOpenSbi
    then e.(nextAddr := hart.entryPoint, hartMask := mask, allowCold := hart.allowCold, allowWarm := hart.allowWarm)
    else e
  }

  ghost function MaskAfter(img: Image, b: Book, t: nat): set<nat>
    requires img.Valid() && b.Valid() && IsHart(t)
  {
    if img.Hart(t).Primary() then b.masks[t] + BootSetMask(img, t) else b.masks[t]
  }

  /** One machine registers its hart's boot set. */
  ghost function Registered(img: Image, b: Book, t: nat): (r: Book)
    requires img.Valid() && b.Valid() && IsHart(t)
    ensures r.Valid()
  {
    var mask := MaskAfter(img, b, t);
    Book(
      seq(5, p requires 0 <= p < 5 =>
        if p == 0 then b.entries[0]
        else if p == t then BootEntry(img, PeerEntry(img, b.entries[p], t, p), t, mask)
        else PeerEntry(img, b.entries[p], t, p)),
      b.masks[t := mask])
  }

  class HartLedger {
    const img: Image
    const entries: array<Entry>
    const masks: array<set<nat>>

    ghost predicate Valid() {
      img.Valid() && entries.Length == 5 && masks.Length == 5
    }

    ghost function Model(): (r: Book)
      reads entries, masks
      ensures Valid() ==> r.Valid()
    {
      Book(entries[..], masks[..])
    }

    constructor (img: Image)
      requires img.Valid()
      ensures Valid() && this.img == img && fresh(entries) && fresh(masks)
      ensures Model() == Book(seq(5, p => EMPTY), seq(5, p => {}))
    {
      this.img := img;
      entries := new Entry[5](p => EMPTY);
      masks := new set<nat>[5](p => {});
    }

    method RegisterHart(hart: nat, boot: nat)
      requires Valid() && IsHart(hart)
      modifies entries
      ensures entries[..] == old(entries[..])[hart := old(entries[hart]).(owner := boot, pending := true)]
    {
      entries[hart] := entries[hart].(owner := boot, pending := true);
    }

    method DeregisterHart(hart: nat)
      requires Valid() && IsHart(hart)
      modifies entries
      ensures entries[..] == old(entries[..])[hart := old(entries[hart]).(owner := 0, pending := false, openSbi := false)]
    {
      entries[hart] := entries[hart].(owner := 0, pending := false);
      entries[hart] := entries[hart].(openSbi := false);
    }

    predicate AreHartsInSameDomain(a: nat, b: nat)
      requires Valid() && a < 5 && b < 5
      reads this, entries
    {
      entries[a].owner == entries[b].owner
    }

    predicate IsColdRebootAllowed(hart: nat)
      requires Valid() && hart < 5
      reads this, entries
    {
      entries[hart].allowCold
    }

    method IsLastHartReady() returns (ready: bool)
      requires Valid()
      ensures ready <==> forall p :: 0 <= p < 5 ==> !entries[p].pending
    {
      var outstanding := 0;
      var p := 0;
      while p < 5
        invariant 0 <= p <= 5 && outstanding >= 0
        invariant outstanding == 0 <==> forall q :: 0 <= q < p ==> !entries[q].pending
      {
        outstanding := outstanding + if entries[p].pending then 1 else 0;
        p := p + 1;
      }
      ready := outstanding == 0;
    }

    /** Called only for a hart that owns itself. */
    method RegisterBootHart(mask: set<nat>, boot: nat)
      requires Valid() && IsHart(boot) && entries[boot].owner == boot
      requires img.Hart(boot).Primary() && !img.Hart(boot).skipOpenSbi
      modifies entries
      ensures entries[..] == old(entries[..])[boot := BootEntry(img, old(entries[boot]), boot, mask)]
    {
      entries[boot] := entries[boot].(nextAddr := img.Hart(boot).entryPoint);
      entries[boot] := entries[boot].(hartMask := mask);
      entries[boot] := entries[boot].(allowCold := img.Hart(boot).allowCold);
      entries[boot] := entries[boot].(allowWarm := img.Hart(boot).allowWarm);
    }

    method RegisterPeers(target: nat)
      requires Valid() && IsHart(target) && img.Hart(target).Primary()
      modifies entries, masks
      ensures entries[0] == old(entries[0])
      ensures forall p :: 1 <= p <= 4 ==> entries[p] == PeerEntry(img, old(entries[p]), target, p)
      ensures masks[..] == old(masks[..])[target := old(masks[target]) + BootSetMask(img, target)]
    {
      var peer: nat := 1;
      while peer <= 4
        invariant 1 <= peer <= 5
        invariant entries[0] == old(entries[0])
        invariant forall p :: 1 <= p < peer ==> entries[p] == PeerEntry(img, old(entries[p]), target, p)
        invariant forall p :: peer <= p <= 4 ==> entries[p] == old(entries[p])
        invariant masks[target] == old(masks[target]) + MaskBelow(img, target, peer)
        invariant forall q :: 0 <= q < 5 && q != target ==> masks[q] == old(masks[q])
      {
        assert MaskBelow(img, target, peer + 1) == MaskBelow(img, target, peer)
          + if !img.Hart(peer).skipOpenSbi && SameEntry(img, peer, target) then {peer} else {};
        if img.Hart(peer).skipOpenSbi {
          DeregisterHart(peer);
        } else if peer == target || img.Hart(peer).entryPoint == img.Hart(target).entryPoint {
          masks[target] := masks[target] + {peer};
          RegisterHart(peer, target);
        }
        peer := peer + 1;
      }
    }

    method RegisterHarts(target: nat)
      requires Valid() && IsHart(target)
      modifies entries, masks
      ensures Model() == Registered(img, old(Model()), target)
    {
      if img.Hart(target).Primary() {
        RegisterPeers(target);
        if !img.Hart(target).skipOpenSbi {
          RegisterBootHart(masks[target], target);
        }
      }
    }
  }
}
