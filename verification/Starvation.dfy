/** When an append finds no slot. The documentation promises that outage data keeps being
    captured; lowest-first allocation can break that promise, and this is exactly when. */
module Starvation {
  import opened Types
  import opened Slots
  import opened Fifo
  import opened FlashSteps
  import opened QueueModel
  import opened CrashSafety

  // ----- how full the sectors must be

  ghost predicate EverySectorBusy(f: Region, n: nat, except: int) {
    forall s: nat :: s < n && s != except ==> HasActive(f, s)
  }

  lemma CountGrows(f: Region, m: nat, n: nat)
    requires m <= n <= |f|
    ensures ActiveBelow(f, m) <= ActiveBelow(f, n)
    ensures (exists i :: m <= i < n && f[i].Active?) ==> ActiveBelow(f, m) < ActiveBelow(f, n)
  {
    if m < n {
      CountGrows(f, m, n - 1);
    }
  }

  /** Pigeonhole: every busy sector accounts for at least one Active slot. */
  lemma {:induction false} BusySectorsCount(f: Region, n: nat, except: int)
    requires 16 * n <= |f| && EverySectorBusy(f, n, except)
    ensures ActiveBelow(f, 16 * n) >= n - (if 0 <= except < n then 1 else 0)
  {
    if n > 0 {
      BusySectorsCount(f, n - 1, except);
      CountGrows(f, 16 * n - 16, 16 * n);
      if n - 1 != except {
        assert HasActive(f, n - 1);
      }
    }
  }

  lemma NoSlotMeansBusy(f: Region)
    requires Reclaimed(f) && FirstErased(f) == None
    ensures EverySectorBusy(f, Sectors(f), if Newest(f).Some? then Newest(f).value / 16 else -1)
  {
    forall s: nat | s < Sectors(f) && !HasActive(f, s) ensures HoldsNewest(f, s) {
      assert !f[16 * s].Erased?;
      assert !SectorErased(f, s);
    }
  }

  /** In a sound region that is not drained, the newest record is itself waiting. */
  lemma NewestWaits(f: Region)
    requires Sound(f) && ActiveCount(f) > 0
    ensures Newest(f).Some? && f[Newest(f).value].Active?
  {
    var i :| 0 <= i < |f| && f[i].Active?;
    assert f[i].Decodable();
  }

  lemma NoSlotCount(f: Region)
    requires Reclaimed(f) && FirstErased(f) == None
    ensures ActiveCount(f) >= Sectors(f) - 1
    ensures Sound(f) ==> ActiveCount(f) >= Sectors(f)
  {
    var except := if Newest(f).Some? then Newest(f).value / 16 else -1;
    NoSlotMeansBusy(f);
    BusySectorsCount(f, Sectors(f), except);
    if Sound(f) {
      NewestWaits(f);
      assert HasActive(f, Newest(f).value / 16);
      BusySectorsCount(f, Sectors(f), -1);
    }
  }

  lemma EvictKeepsReclaimed(q: Queue)
    requires Consistent(q) && Reclaimed(q.slots)
    ensures Reclaimed(Evict(q).slots) && Sectors(Evict(q).slots) == Sectors(q.slots)
  {
    if q.depth == Capacity(q.slots) && Oldest(q.slots).Some? {
      ReclaimSettles(RetireAt(q.slots, Oldest(q.slots).value));
    }
  }

  /** On a reclaimed region an append can only fail while at least one record per sector but one is
      still waiting after the eviction; on a sound one, while every sector holds one. */
  lemma StarvationNeedsRecords(q: Queue, m: Measurement)
    requires Consistent(q) && Reclaimed(q.slots) && Append(q, m).1.Err?
    ensures ActiveCount(Evict(q).slots) >= Sectors(q.slots) - 1
    ensures Good(q) ==> ActiveCount(Evict(q).slots) >= Sectors(q.slots)
  {
    EvictKeepsReclaimed(q);
    NoSlotCount(Evict(q).slots);
    if Good(q) {
      EvictEffect(q);
    }
  }

  /** A drained queue accepts an append if and only if some slot is erased, and on a reclaimed region
      one always is. */
  lemma DrainedAccepts(q: Queue, m: Measurement)
    requires Consistent(q) && q.depth == 0
    ensures Append(q, m).1.Ok? <==> FirstErased(q.slots).Some?
    ensures Reclaimed(q.slots) ==> Append(q, m).1 == Ok(Record(q.next, m))
    ensures Append(Recover(q.slots), m).1.Ok?
  {
    if Reclaimed(q.slots) && Append(q, m).1.Err? {
      StarvationNeedsRecords(q, m);
      assert false;
    }
    RestartedAccepts(q.slots, m);
  }

  lemma RestartedAccepts(f: Region, m: Measurement)
    requires ActiveCount(f) == 0
    ensures Consistent(Recover(f)) && Append(Recover(f), m).1.Ok?
  {
    ReclaimStepsRun(f);
    SameActiveCounts(f, Reclaim(f));
    ReclaimSettles(f);
    if Append(Recover(f), m).1.Err? {
      StarvationNeedsRecords(Recover(f), m);
      assert false;
    }
  }

  /** Every record retired, no sector erased: what failing erasures can leave of two sectors. */
  function DrainedRegion(m: Measurement): Region {
    seq(32, i requires 0 <= i < 32 => Acknowledged(Some(StoredRecord(Record(i, m)))))
  }

  lemma DrainedFacts(m: Measurement)
    ensures var f := DrainedRegion(m);
            && ActiveCount(f) == 0 && Oldest(f) == None && FirstErased(f) == None && Newest(f) == Some(31)
            && f[31].Sequence() == 31 && Sound(f) && Reclaimable(f, 0)
  {
    var f := DrainedRegion(m);
    NewestIs(f, 31);
    assert f[0].Acknowledged?;
    assert Dirty(f, 0);
  }

  /** On a region that is not reclaimed a drained queue may refuse, and go on refusing, although
      there are sectors it could erase: neither a refused append nor an acknowledgment of nothing
      reclaims. Only a restart does. */
  lemma DrainedMayRefuse(m: Measurement)
    ensures var q := Queue(DrainedRegion(m), 0, 32, 0);
            && Good(q) && FirstErased(q.slots) == None && Append(q, m) == (q.(next := 33), Err(InvalidGeometry)) && Acknowledge(q) == (q, None)
            && Reclaimable(q.slots, 0) && Append(Recover(q.slots), m).1.Ok?
  {
    hide DrainedRegion, Sound, Recover, ActiveBelow, OldestBelow, NewestBelow, FirstErasedFrom;
    DrainedFacts(m);
    RestartedAccepts(DrainedRegion(m), m);
  }

  /** The bound for sound regions is reached, for every number of sectors: one waiting record at
      the start of each sector, and fifteen torn bodies after it. */
  function TornRegion(sectors: nat, m: Measurement): Region
    requires 2 <= sectors < TWO_TO_THE_64
  {
    seq(16 * sectors, i requires 0 <= i < 16 * sectors => if i % 16 == 0 then Active(StoredRecord(Record(i / 16, m))) else Corrupt)
  }

  lemma OneMoreSixteenth(n: nat)
    requires n > 0
    ensures (n + 15) / 16 == (n + 14) / 16 + if (n - 1) % 16 == 0 then 1 else 0
  {}

  lemma {:induction false} TornRegionCount(sectors: nat, m: Measurement, n: nat)
    requires 2 <= sectors < TWO_TO_THE_64 && n <= 16 * sectors
    ensures ActiveBelow(TornRegion(sectors, m), n) == (n + 15) / 16
  {
    if n > 0 {
      assert TornRegion(sectors, m)[n - 1].Active? <==> (n - 1) % 16 == 0;
      hide TornRegion;
      OneMoreSixteenth(n);
      TornRegionCount(sectors, m, n - 1);
    }
  }

  lemma TornRegionDistinct(sectors: nat, m: Measurement)
    requires 2 <= sectors < TWO_TO_THE_64
    ensures Distinct(TornRegion(sectors, m)) && RetiredAreOlder(TornRegion(sectors, m))
  {}

  lemma TornRegionSound(sectors: nat, m: Measurement)
    requires 2 <= sectors < TWO_TO_THE_64
    ensures var f := TornRegion(sectors, m);
            Sound(f) && Reclaimed(f) && MaxSequence(f) == sectors - 1 && forall i :: 0 <= i < |f| ==> !f[i].Erased?
  {
    hide ActiveBelow, NewestBelow, Distinct, RetiredAreOlder;
    var f := TornRegion(sectors, m);
    TornRegionDistinct(sectors, m);
    TornRegionCount(sectors, m, 16 * sectors);
    NewestIs(f, 16 * sectors - 16);
    forall s | 0 <= s < Sectors(f) ensures HasActive(f, s) {
      assert f[16 * s].Active?;
    }
  }

  lemma StarvationBoundIsTight(sectors: nat, m: Measurement)
    requires 2 <= sectors < TWO_TO_THE_64 - 1
    ensures var q := Queue(TornRegion(sectors, m), sectors, sectors, 0);
            && Good(q) && Reclaimed(q.slots) && Evict(q) == q && Append(q, m).1 == Err(InvalidGeometry)
            && ActiveCount(q.slots) == Sectors(q.slots)
  {
    var f := TornRegion(sectors, m);
    TornRegionCount(sectors, m, 16 * sectors);
    TornRegionSound(sectors, m);
    hide Sound, MaxSequence, TornRegion, ActiveBelow;
    assert FirstErased(f) == None;
  }

  // ----- the exact condition

  /** The oldest record is alone in its sector, and the newest is elsewhere. */
  ghost predicate EvictionFreesSector(f: Region) {
    Oldest(f).Some? &&
    var i := Oldest(f).value;
    && (forall j :: 0 <= j < |f| && j / 16 == i / 16 && f[j].Active? ==> j == i)
    && !HoldsNewest(f, i / 16)
  }

  lemma RetiredSector(f: Region, i: nat, s: nat)
    requires Sound(f) && Reclaimed(f) && Oldest(f) == Some(i)
    ensures Reclaimable(RetireAt(f, i), s) ==> s == i / 16
  {
    var g := RetireAt(f, i);
    RetireKeepsSound(f, i);
    hide Sound, Contents, NewestBelow, OldestBelow, ActiveBelow;
    if s != i / 16 && s < Sectors(f) {
      assert forall j :: 16 * s <= j < 16 * s + 16 && j < |f| ==> g[j] == f[j];
      if HasActive(f, s) {
        var j :| 16 * s <= j < 16 * s + 16 && j < |f| && f[j].Active?;
        assert g[j].Active?;
      }
      assert SectorErased(f, s) || HasActive(f, s) || HoldsNewest(f, s);
    }
  }

  lemma FreedSector(f: Region, i: nat)
    requires Sound(f) && Oldest(f) == Some(i)
    ensures Reclaimable(RetireAt(f, i), i / 16) <==> EvictionFreesSector(f)
  {
    var g, s := RetireAt(f, i), i / 16;
    RetireKeepsSound(f, i);
    hide Sound, Contents, NewestBelow, OldestBelow, ActiveBelow;
    assert g[i].Acknowledged?;
    assert Dirty(g, s);
    assert HoldsNewest(g, s) == HoldsNewest(f, s);
    AloneInSector(f, i);
    hide Dirty, HasActive, HoldsNewest;
  }

  lemma AloneInSector(f: Region, i: nat)
    requires i < |f| && f[i].Active?
    ensures HasActive(RetireAt(f, i), i / 16) <==> exists j :: 0 <= j < |f| && j / 16 == i / 16 && f[j].Active? && j != i
  {
    hide ActiveBelow;
    var g, s := RetireAt(f, i), i / 16;
    assert forall j :: 0 <= j < |f| && j != i ==> g[j] == f[j];
    if HasActive(g, s) {
      var j :| 16 * s <= j < 16 * s + 16 && j < |g| && g[j].Active?;
      assert f[j].Active? && j != i && j / 16 == s;
    }
  }

  lemma ErasedAfterReclaim(f: Region)
    ensures FirstErased(Reclaim(f)).Some? <==>
            FirstErased(f).Some? || exists s :: 0 <= s < Sectors(f) && Reclaimable(f, s)
  {
    hide Reclaimable;
    var g := Reclaim(f);
    if FirstErased(f).Some? {
      assert g[FirstErased(f).value].Erased?;
    }
    if exists s :: 0 <= s < Sectors(f) && Reclaimable(f, s) {
      var s :| 0 <= s < Sectors(f) && Reclaimable(f, s);
      assert g[16 * s].Erased?;
    }
    if FirstErased(g).Some? {
      var i := FirstErased(g).value;
      assert f[i].Erased? || Reclaimable(f, i / 16);
    }
  }

  lemma EvictedSlots(q: Queue)
    requires Good(q) && q.depth == Capacity(q.slots)
    ensures Oldest(q.slots).Some? && Evict(q).slots == Reclaim(RetireAt(q.slots, Oldest(q.slots).value))
  {
    EvictEffect(q);
  }

  lemma SameErased(f: Region, i: nat)
    requires i < |f| && f[i].Active?
    ensures FirstErased(RetireAt(f, i)).Some? == FirstErased(f).Some?
  {
    var g := RetireAt(f, i);
    if FirstErased(f).Some? {
      assert g[FirstErased(f).value].Erased?;
    }
    if FirstErased(g).Some? {
      assert f[FirstErased(g).value].Erased?;
    }
  }

  /** An append succeeds if and only if some slot is erased, or the queue is full and retiring its
      oldest record lets some sector be erased. */
  lemma AppendSucceedsIff(q: Queue, m: Measurement)
    requires Good(q)
    ensures q.depth == Capacity(q.slots) ==> Oldest(q.slots).Some?
    ensures Append(q, m).1.Ok? <==>
            || FirstErased(q.slots).Some?
            || (q.depth == Capacity(q.slots)
                && exists s :: 0 <= s < Sectors(q.slots) && Reclaimable(RetireAt(q.slots, Oldest(q.slots).value), s))
  {
    hide Sound, Reclaimable, Reclaim;
    if q.depth == Capacity(q.slots) {
      EvictedSlots(q);
      ErasedAfterReclaim(RetireAt(q.slots, Oldest(q.slots).value));
      SameErased(q.slots, Oldest(q.slots).value);
    }
  }

  /** On a reclaimed region the only such sector can be the oldest record's own. */
  lemma AppendSucceedsIffReclaimed(q: Queue, m: Measurement)
    requires Good(q) && Reclaimed(q.slots)
    ensures Append(q, m).1.Ok? <==>
            FirstErased(q.slots).Some? || (q.depth == Capacity(q.slots) && EvictionFreesSector(q.slots))
  {
    hide Sound, Reclaimable, EvictionFreesSector, Reclaimed, Append;
    AppendSucceedsIff(q, m);
    if q.depth == Capacity(q.slots) {
      var f, i := q.slots, Oldest(q.slots).value;
      FreedSector(f, i);
      forall s | 0 <= s < Sectors(f) && Reclaimable(RetireAt(f, i), s) ensures s == i / 16 {
        RetiredSector(f, i, s);
      }
    }
  }

  /** The operations that reclaim: a recovery, an acknowledgment of something, an append that evicts
      or places a record. */
  ghost predicate Reclaims(q: Queue, call: Call)
    requires Consistent(q)
  {
    match call
    case CallRecover => true
    case CallAcknowledge => Oldest(q.slots).Some?
    case CallAppend(m) => (q.depth == Capacity(q.slots) && Oldest(q.slots).Some?) || Append(q, m).1.Ok?
  }

  /** They leave a reclaimed region, whatever they started from; the others leave it as it was. */
  lemma AfterIsReclaimed(q: Queue, call: Call)
    requires Consistent(q)
    ensures if Reclaims(q, call) then Reclaimed(After(q, call).slots) else After(q, call).slots == q.slots
  {
    hide Reclaimed;
    match call
    case CallRecover => ReclaimSettles(q.slots);
    case CallAcknowledge =>
      if Oldest(q.slots).Some? {
        ReclaimSettles(RetireAt(q.slots, Oldest(q.slots).value));
      }
    case CallAppend(m) =>
      if Oldest(q.slots).Some? {
        ReclaimSettles(RetireAt(q.slots, Oldest(q.slots).value));
      }
      var f := Evict(q).slots;
      if FirstErased(f).Some? {
        ReclaimSettles(Do(f, Put(FirstErased(f).value, Record(Evict(q).next, m))));
      }
  }

  // ----- once refused

  /** No slot, nothing to erase, and not full, so the drop-oldest branch is not taken. */
  ghost predicate Starved(q: Queue) {
    Good(q) && Reclaimed(q.slots) && FirstErased(q.slots) == None && q.depth < Capacity(q.slots)
  }

  lemma RefusalStarves(q: Queue, m: Measurement)
    requires Good(q) && Reclaimed(q.slots) && q.next + 1 < TWO_TO_THE_64 && Append(q, m).1.Err?
    ensures Starved(Append(q, m).0)
  {
    hide Sound, Contents, ActiveCount, MaxSequence, Reclaimed;
    EvictEffect(q);
    EvictKeepsReclaimed(q);
    AppendEffect(q, m);
    hide Acknowledge;
  }

  /** Neither an append nor a restart changes anything; only an acknowledgment can. */
  lemma StarvationLasts(q: Queue, call: Call)
    requires Starved(q) && q.next + 1 < TWO_TO_THE_64 && !call.CallAcknowledge?
    ensures Starved(After(q, call)) && After(q, call).slots == q.slots && After(q, call).next <= q.next + 1
    ensures call.CallAppend? ==> Append(q, call.reading).1 == Err(InvalidGeometry)
  {
    hide Sound, Contents, ActiveCount, MaxSequence, Reclaimed;
    match call
    case CallRecover =>
      ReclaimedIsFixed(q.slots);
      RecoverEffect(q.slots);
    case CallAppend(m) =>
      EvictIs(q);
      AppendEffect(q, m);
      hide Acknowledge;
  }

  /** Nothing waiting, no slot erased, and so nothing an operation other than a restart would erase. */
  ghost predicate Stuck(q: Queue) {
    Good(q) && q.depth == 0 && FirstErased(q.slots) == None
  }

  /** Neither an append nor an acknowledgment changes anything; only a restart can. */
  lemma StuckLasts(q: Queue, call: Call)
    requires Stuck(q) && q.next + 1 < TWO_TO_THE_64 && !call.CallRecover?
    ensures Stuck(After(q, call)) && After(q, call).slots == q.slots && After(q, call).next <= q.next + 1
    ensures call.CallAppend? ==> Append(q, call.reading).1 == Err(InvalidGeometry)
  {
    hide Sound, MaxSequence, ActiveCount, Reclaim;
    match call
    case CallAcknowledge => AcknowledgeEffect(q);
    case CallAppend(m) =>
      EvictIs(q);
      AppendEffect(q, m);
      hide Acknowledge;
  }
}
