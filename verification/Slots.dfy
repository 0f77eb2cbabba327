/** The region as the queue reads it: sectors of sixteen slots, and the scans over them. */
module Slots {
  import opened Types

  datatype Slot = Erased | Active(record: Record) | Acknowledged(remains: Option<Record>) | Corrupt {
    predicate Decodable() {
      Active? || (Acknowledged? && remains.Some?)
    }

    function Sequence(): u64
      requires Decodable()
    {
      if Active? then record.sequence else remains.value.sequence
    }
  }

  type Region = s: seq<Slot> | |s| >= 32 && |s| % 16 == 0 witness seq(32, _ => Erased)

  function Sectors(f: Region): nat {
    |f| / 16
  }

  /** One sector is working space, so it does not count towards the capacity. */
  function Capacity(f: Region): nat {
    |f| - 16
  }

  function Blank(sectors: nat): Region
    requires sectors >= 2
  {
    seq(16 * sectors, _ => Erased)
  }

  // ----- scans in slot order

  /** The first of the Active slots below `n` with the least sequence. */
  function OldestBelow(f: Region, n: nat): (r: Option<nat>)
    requires n <= |f|
    ensures r == None ==> forall i :: 0 <= i < n ==> !f[i].Active?
    ensures r.Some? ==> r.value < n && f[r.value].Active?
    ensures r.Some? ==> forall i :: 0 <= i < n && f[i].Active? ==>
              f[r.value].record.sequence <= f[i].record.sequence
              && (f[r.value].record.sequence == f[i].record.sequence ==> r.value <= i)
  {
    if n == 0 then None
    else
      var best := OldestBelow(f, n - 1);
      if f[n - 1].Active? && (best == None || f[n - 1].record.sequence < f[best.value].record.sequence)
      then Some(n - 1) else best
  }

  function Oldest(f: Region): Option<nat> {
    OldestBelow(f, |f|)
  }

  /** The first of the decodable slots below `n` with the greatest sequence. */
  function NewestBelow(f: Region, n: nat): (r: Option<nat>)
    requires n <= |f|
    ensures r == None ==> forall i :: 0 <= i < n ==> !f[i].Decodable()
    ensures r.Some? ==> r.value < n && f[r.value].Decodable()
    ensures r.Some? ==> forall i :: 0 <= i < n && f[i].Decodable() ==>
              f[i].Sequence() <= f[r.value].Sequence()
              && (f[r.value].Sequence() == f[i].Sequence() ==> r.value <= i)
  {
    if n == 0 then None
    else
      var best := NewestBelow(f, n - 1);
      if f[n - 1].Decodable() && (best == None || f[n - 1].Sequence() > f[best.value].Sequence())
      then Some(n - 1) else best
  }

  function Newest(f: Region): Option<nat> {
    NewestBelow(f, |f|)
  }

  /** The largest sequence that can still be decoded, or -1. */
  function MaxSequence(f: Region): int {
    var newest := Newest(f);
    if newest == None then -1 else f[newest.value].Sequence()
  }

  function FirstErasedFrom(f: Region, n: nat): (r: Option<nat>)
    requires n <= |f|
    ensures r == None ==> forall i :: n <= i < |f| ==> !f[i].Erased?
    ensures r.Some? ==> n <= r.value < |f| && f[r.value].Erased?
    ensures r.Some? ==> forall i :: n <= i < r.value ==> !f[i].Erased?
    decreases |f| - n
  {
    if n == |f| then None else if f[n].Erased? then Some(n) else FirstErasedFrom(f, n + 1)
  }

  function FirstErased(f: Region): Option<nat> {
    FirstErasedFrom(f, 0)
  }

  function ActiveBelow(f: Region, n: nat): (count: nat)
    requires n <= |f|
    ensures count <= n
    ensures count > 0 <==> exists i :: 0 <= i < n && f[i].Active?
  {
    if n == 0 then 0 else ActiveBelow(f, n - 1) + (if f[n - 1].Active? then 1 else 0)
  }

  function ActiveCount(f: Region): nat {
    ActiveBelow(f, |f|)
  }

  /** Corrupt slots and retired slots whose record is gone. */
  ghost function UndecodableSlots(f: Region, n: nat): set<nat>
    requires n <= |f|
  {
    set i: nat | i < n && f[i] in {Corrupt, Acknowledged(None)}
  }

  lemma OneMoreUndecodable(f: Region, n: nat)
    requires n < |f|
    ensures |UndecodableSlots(f, n + 1)|
            == |UndecodableSlots(f, n)| + if f[n] in {Corrupt, Acknowledged(None)} then 1 else 0
  {
    assert UndecodableSlots(f, n + 1) == UndecodableSlots(f, n) + if f[n] in {Corrupt, Acknowledged(None)} then {n} else {};
  }

  ghost function ActiveSlots(f: Region, n: nat): set<nat>
    requires n <= |f|
  {
    set i: nat | i < n && f[i].Active?
  }

  /** The count is a number of slots. */
  lemma {:induction false} ActiveIsCardinality(f: Region, n: nat)
    requires n <= |f|
    ensures ActiveBelow(f, n) == |ActiveSlots(f, n)|
  {
    if n > 0 {
      ActiveIsCardinality(f, n - 1);
      assert ActiveSlots(f, n) == ActiveSlots(f, n - 1) + if f[n - 1].Active? then {n - 1} else {};
    }
  }

  // ----- sectors

  ghost predicate SectorErased(f: Region, sector: nat) {
    forall i :: 16 * sector <= i < 16 * sector + 16 && i < |f| ==> f[i].Erased?
  }

  ghost predicate HasActive(f: Region, sector: nat) {
    exists i :: 16 * sector <= i < 16 * sector + 16 && i < |f| && f[i].Active?
  }

  ghost predicate Dirty(f: Region, sector: nat) {
    exists i :: 16 * sector <= i < 16 * sector + 16 && i < |f| && (f[i].Acknowledged? || f[i].Corrupt?)
  }

  ghost predicate HoldsNewest(f: Region, sector: nat) {
    Newest(f).Some? && 16 * sector <= Newest(f).value < 16 * sector + 16
  }

  ghost predicate Reclaimable(f: Region, sector: nat) {
    !HasActive(f, sector) && Dirty(f, sector) && !HoldsNewest(f, sector)
  }

  ghost function EraseSector(f: Region, sector: nat): (g: Region)
    ensures |g| == |f|
  {
    seq(|f|, i requires 0 <= i < |f| => if 16 * sector <= i < 16 * sector + 16 then Erased else f[i])
  }

  /** Every reclaimable sector erased, everything else untouched. */
  ghost function Reclaim(f: Region): (g: Region)
    ensures |g| == |f|
  {
    seq(|f|, i requires 0 <= i < |f| => if Reclaimable(f, i / 16) then Erased else f[i])
  }

  // ----- uniqueness of the scans, and what they do not look at

  lemma NewestIs(f: Region, n: nat)
    requires n < |f| && f[n].Decodable()
    requires forall i :: 0 <= i < |f| && f[i].Decodable() ==>
               f[i].Sequence() <= f[n].Sequence() && (f[i].Sequence() == f[n].Sequence() ==> n <= i)
    ensures Newest(f) == Some(n)
  {
    assert Newest(f).Some?;
  }

  lemma OldestIs(f: Region, n: nat)
    requires n < |f| && f[n].Active?
    requires forall i :: 0 <= i < |f| && f[i].Active? ==>
               f[n].record.sequence <= f[i].record.sequence
               && (f[i].record.sequence == f[n].record.sequence ==> n <= i)
    ensures Oldest(f) == Some(n)
  {
    assert Oldest(f).Some?;
  }

  ghost predicate SameActive(f: Region, g: Region) {
    |f| == |g| && forall i :: 0 <= i < |f| && (f[i].Active? || g[i].Active?) ==> f[i] == g[i]
  }

  lemma SameActiveCount(f: Region, g: Region, n: nat)
    requires SameActive(f, g) && n <= |f|
    ensures ActiveBelow(f, n) == ActiveBelow(g, n)
  {
    if n > 0 {
      SameActiveCount(f, g, n - 1);
    }
  }

  lemma SameActiveCounts(f: Region, g: Region)
    requires SameActive(f, g)
    ensures ActiveCount(f) == ActiveCount(g)
  {
    SameActiveCount(f, g, |f|);
  }

  lemma SameActiveOldest(f: Region, g: Region)
    requires SameActive(f, g)
    ensures Oldest(f) == Oldest(g)
  {
    if Oldest(f).Some? {
      var o := Oldest(f).value;
      forall i | 0 <= i < |g| && g[i].Active?
        ensures g[o].record.sequence <= g[i].record.sequence
                && (g[i].record.sequence == g[o].record.sequence ==> o <= i)
      {
        assert f[i] == g[i];
      }
      OldestIs(g, o);
    }
  }

  lemma CountAfterUpdate(f: Region, i: nat, slot: Slot, n: nat)
    requires i < |f| && n <= |f|
    ensures ActiveBelow(f[i := slot], n) ==
            ActiveBelow(f, n) + (if i < n then (if slot.Active? then 1 else 0) - (if f[i].Active? then 1 else 0) else 0)
  {
    if n > 0 {
      CountAfterUpdate(f, i, slot, n - 1);
    }
  }
}
