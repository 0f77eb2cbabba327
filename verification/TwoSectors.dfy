/** The smallest region the queue accepts never refuses an append in a run without power cuts; from
    three sectors on some run does. */
module TwoSectors {
  import opened Types
  import opened Slots
  import opened Fifo
  import opened FlashSteps
  import opened QueueModel
  import opened CrashSafety
  import opened Wear
  import opened Starvation

  ghost predicate OlderElsewhere(f: Region, young: nat) {
    forall i, j :: 0 <= i < |f| && 0 <= j < |f| && i / 16 == young && j / 16 != young && f[i].Decodable() && f[j].Decodable() ==>
      f[j].Sequence() < f[i].Sequence()
  }

  /** No torn bodies; the newest record's sector holds only records newer than the other's; and if it
      is the upper one, the lower one is wholly erased or wholly used. */
  ghost predicate AgeSplit(f: Region) {
    && |f| == 32
    && (forall i :: 0 <= i < |f| ==> f[i].Erased? || f[i].Decodable())
    && (Newest(f).Some? ==> OlderElsewhere(f, Newest(f).value / 16))
    && (Newest(f).Some? && Newest(f).value / 16 == 1 ==> SectorErased(f, 0) || !HasErased(f, 0))
  }

  lemma SplitAfterRetire(f: Region, i: nat)
    requires AgeSplit(f) && Sound(f) && Oldest(f) == Some(i)
    ensures AgeSplit(RetireAt(f, i))
  {
    hide Sound, Contents, NewestBelow, ActiveBelow;
    RetireKeepsSound(f, i);
    OldestIsLeast(f, i);
    hide OldestBelow;
    var g := RetireAt(f, i);
    assert forall j :: 0 <= j < |f| ==> g[j].Erased? == f[j].Erased? && g[j].Decodable() == f[j].Decodable();
    assert forall j :: 0 <= j < |f| && f[j].Decodable() ==> g[j].Sequence() == f[j].Sequence();
    if Newest(f).Some? {
      assert OlderElsewhere(g, Newest(f).value / 16);
    }
    hide OlderElsewhere;
  }

  lemma SplitAfterReclaim(f: Region)
    requires AgeSplit(f)
    ensures AgeSplit(Reclaim(f))
  {
    ReclaimStepsRun(f);
    LosingKeepsNewest(f, Reclaim(f));
    if Reclaimable(f, 0) {
      ReclaimErasesSector(f, 0);
    } else {
      ReclaimKeepsSector(f, 0);
    }
    hide Reclaimable, NewestBelow;
  }

  // ----- counting

  lemma BusySector(f: Region, from: nat, n: nat)
    requires from <= n <= |f| && forall i :: from <= i < n ==> f[i].Active?
    ensures ActiveBelow(f, n) == ActiveBelow(f, from) + (n - from)
  {
    if from < n {
      BusySector(f, from, n - 1);
    }
  }

  lemma YoungerWaits(f: Region, i: nat, j: nat)
    requires RetiredAreOlder(f) && i < |f| && j < |f| && f[j].Active? && f[i].Decodable()
    requires OlderElsewhere(f, i / 16) && j / 16 != i / 16
    ensures f[i].Active?
  {
    assert f[j].Sequence() < f[i].Sequence();
  }

  lemma FullSectorWaits(f: Region, young: nat)
    requires |f| == 32 && RetiredAreOlder(f) && young < 2 && OlderElsewhere(f, young)
    requires forall i :: 16 * young <= i < 16 * young + 16 ==> f[i].Decodable()
    requires HasActive(f, 1 - young)
    ensures forall i :: 16 * young <= i < 16 * young + 16 ==> f[i].Active?
  {
    hide OlderElsewhere, RetiredAreOlder;
    var j :| 16 * (1 - young) <= j < 16 * (1 - young) + 16 && j < |f| && f[j].Active?;
    SectorBounds(j, 1 - young);
    forall i | 16 * young <= i < 16 * young + 16 ensures f[i].Active? {
      SectorBounds(i, young);
      YoungerWaits(f, i, j);
    }
  }

  /** A full newest sector and one record still waiting in the other are seventeen in all. */
  lemma OneTooMany(f: Region, young: nat)
    requires |f| == 32 && RetiredAreOlder(f) && young < 2 && OlderElsewhere(f, young)
    requires forall i :: 16 * young <= i < 16 * young + 16 ==> f[i].Decodable()
    requires HasActive(f, 1 - young)
    ensures ActiveCount(f) > 16
  {
    hide OlderElsewhere, RetiredAreOlder;
    FullSectorWaits(f, young);
    if young == 0 {
      BusySector(f, 0, 16);
      CountGrows(f, 16, 32);
    } else {
      BusySector(f, 16, 32);
      CountGrows(f, 0, 16);
    }
  }

  /** The other sector, once the newest one is full, is wholly erased. */
  lemma OtherIsErased(f: Region, young: nat)
    requires AgeSplit(f) && Sound(f) && Reclaimed(f) && ActiveCount(f) <= 16
    requires Newest(f).Some? && young == Newest(f).value / 16 && !HasErased(f, young)
    ensures SectorErased(f, 1 - young)
  {
    assert young < 2;
    forall i | 16 * young <= i < 16 * young + 16 ensures f[i].Decodable() {
      assert i < |f|;
    }
    assert !HoldsNewest(f, 1 - young);
    ReclaimedSector(f, 1 - young);
    if HasActive(f, 1 - young) {
      OneTooMany(f, young);
    }
  }

  lemma ReclaimedSector(f: Region, s: nat)
    requires Reclaimed(f) && s < Sectors(f)
    ensures SectorErased(f, s) || HasActive(f, s) || HoldsNewest(f, s)
  {}

  lemma RoomSomewhere(f: Region)
    requires AgeSplit(f) && Sound(f) && Reclaimed(f) && ActiveCount(f) <= 16
    ensures FirstErased(f).Some?
  {
    if Newest(f).Some? && !HasErased(f, Newest(f).value / 16) {
      var young := Newest(f).value / 16;
      OtherIsErased(f, young);
      assert f[16 * (1 - young)].Erased?;
    } else if Newest(f) == None {
      assert f[0].Erased?;
    }
  }

  /** An append goes to the newest sector, or starts a wholly erased one. */
  lemma PutStaysOrStarts(f: Region)
    requires AgeSplit(f) && Sound(f) && Reclaimed(f) && ActiveCount(f) <= 16 && FirstErased(f).Some?
    ensures Newest(f).Some? && FirstErased(f).value / 16 != Newest(f).value / 16 ==>
              var young := Newest(f).value / 16;
              SectorErased(f, FirstErased(f).value / 16) && (young == 0 ==> !HasErased(f, 0))
  {
    if Newest(f).Some? {
      var i, young := FirstErased(f).value, Newest(f).value / 16;
      if i / 16 != young {
        if young == 0 {
          OtherIsErased(f, 0);
        } else {
          assert HasErased(f, 0);
        }
      }
    }
  }

  lemma SplitAfterPut(f: Region, r: Record)
    requires AgeSplit(f) && Sound(f) && Reclaimed(f) && ActiveCount(f) < 16
    requires FirstErased(f).Some? && MaxSequence(f) < r.sequence
    ensures AgeSplit(Do(f, Put(FirstErased(f).value, r)))
  {
    var i := FirstErased(f).value;
    var g := Do(f, Put(i, r));
    PutStaysOrStarts(f);
    PutKeepsSound(f, i, r);
    FreshIsLargest(f, r.sequence);
    var young := i / 16;
    YoungestSector(f, i, g[i]);
    if young == 1 {
      LowerUntouched(f, g, i);
    }
    hide Sound, Contents, ActiveBelow, OldestBelow, NewestBelow, OlderElsewhere, FirstErasedFrom;
  }

  lemma YoungestSector(f: Region, i: nat, slot: Slot)
    requires |f| == 32 && i < 32 && slot.Active?
    requires forall j :: 0 <= j < |f| && f[j].Decodable() ==> f[j].Sequence() < slot.Sequence()
    requires Newest(f).Some? ==> OlderElsewhere(f, Newest(f).value / 16)
    requires Newest(f).Some? && i / 16 != Newest(f).value / 16 ==> SectorErased(f, i / 16)
    ensures OlderElsewhere(f[i := slot], i / 16)
  {
    hide NewestBelow;
    var g := f[i := slot];
    if Newest(f).Some? {
      forall j, k | 0 <= j < |g| && 0 <= k < |g| && j / 16 == i / 16 && k / 16 != i / 16 && g[j].Decodable() && g[k].Decodable()
        ensures g[k].Sequence() < g[j].Sequence()
      {
        assert g[k] == f[k];
        if j != i {
          assert g[j] == f[j];
        }
      }
    } else {
      NothingDecodable(f);
    }
  }

  lemma NothingDecodable(f: Region)
    requires Newest(f) == None
    ensures forall j :: 0 <= j < |f| ==> !f[j].Decodable()
  {}

  lemma LowerUntouched(f: Region, g: Region, i: nat)
    requires |f| == |g| == 32 && i / 16 == 1 && FirstErased(f) == Some(i)
    requires forall j :: 0 <= j < |f| && j != i ==> g[j] == f[j]
    ensures !HasErased(g, 0)
  {}

  // ----- whole runs

  ghost predicate Healthy(q: Queue) {
    Good(q) && Reclaimed(q.slots) && AgeSplit(q.slots)
  }

  lemma EvictStaysHealthy(q: Queue)
    requires Healthy(q)
    ensures Healthy(Evict(q)) && ActiveCount(Evict(q).slots) < 16 && Evict(q).next == q.next
  {
    EvictEffect(q);
    EvictKeepsReclaimed(q);
    if q.depth == Capacity(q.slots) {
      var i := Oldest(q.slots).value;
      SplitAfterRetire(q.slots, i);
      SplitAfterReclaim(RetireAt(q.slots, i));
    }
    hide Sound, Contents, AgeSplit, Reclaimed, MaxSequence;
  }

  lemma AppendStaysHealthy(q: Queue, m: Measurement)
    requires Healthy(q) && q.next + 1 < TWO_TO_THE_64
    ensures Healthy(Append(q, m).0) && Append(q, m).1.Ok?
  {
    hide Sound, Contents, AgeSplit, Reclaimed, MaxSequence, Evict, ActiveCount;
    var e, r := Evict(q), Record(q.next, m);
    EvictStaysHealthy(q);
    AppendEffect(q, m);
    RoomSomewhere(e.slots);
    SplitAfterPut(e.slots, r);
    var g := Do(e.slots, Put(FirstErased(e.slots).value, r));
    SplitAfterReclaim(g);
    ReclaimSettles(g);
    AppendPlan(q, m);
  }

  lemma CallStaysHealthy(q: Queue, call: Call)
    requires Healthy(q) && q.next + 1 < TWO_TO_THE_64
    ensures Healthy(After(q, call))
  {
    hide Sound, Contents, AgeSplit, Reclaimed, MaxSequence, ActiveCount, Reclaims;
    AfterGood(q, call);
    AfterIsReclaimed(q, call);
    match call
    case CallAppend(m) => AppendStaysHealthy(q, m);
    case CallRecover => SplitAfterReclaim(q.slots);
    case CallAcknowledge =>
      if Oldest(q.slots).Some? {
        SplitAfterRetire(q.slots, Oldest(q.slots).value);
        SplitAfterReclaim(RetireAt(q.slots, Oldest(q.slots).value));
      }
  }

  lemma {:induction false} RunIsHealthy(calls: seq<Call>)
    requires |calls| < TWO_TO_THE_64
    ensures Healthy(Run(2, calls)) && Run(2, calls).next <= |calls|
  {
    hide Healthy, After, Good;
    RunGood(2, calls);
    if calls == [] {
      BlankIsHealthy();
    } else {
      var rest := calls[..|calls| - 1];
      RunIsHealthy(rest);
      CallStaysHealthy(Run(2, rest), calls[|calls| - 1]);
    }
  }

  lemma BlankIsHealthy()
    ensures Healthy(Recover(Blank(2)))
  {
    hide Sound, Contents, ActiveCount, Reclaimed;
    BlankIsGood(2);
    RecoverSlots(Blank(2));
    ReclaimSettles(Blank(2));
    assert Newest(Blank(2)) == None;
    hide NewestBelow, Recover;
  }

  /** With two sectors no run without power cuts ever refuses a measurement. */
  lemma TwoSectorsNeverRefuse(calls: seq<Call>, m: Measurement)
    requires |calls| + 1 < TWO_TO_THE_64
    ensures Append(Run(2, calls), m).1.Ok?
  {
    hide Healthy, Append;
    RunIsHealthy(calls);
    AppendStaysHealthy(Run(2, calls), m);
  }
}
