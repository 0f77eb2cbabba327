/** The queue operations as functions of the queue's state, and as the flash steps they issue. */
module QueueModel {
  import opened Types
  import opened Slots
  import opened Fifo
  import opened FlashSteps

  /** The region and the three counters kept in RAM. */
  datatype Queue = Queue(slots: Region, depth: nat, next: u64, dropped: u64)

  ghost predicate Consistent(q: Queue) {
    q.depth == ActiveCount(q.slots)
  }

  /** What every operation keeps: the region is sound and the next sequence is fresh. */
  ghost predicate Good(q: Queue) {
    Consistent(q) && Sound(q.slots) && MaxSequence(q.slots) < q.next
  }

  // ----- reclaiming

  ghost function ReclaimStepsFrom(f: Region, sector: nat): seq<Step>
    decreases Sectors(f) - sector
  {
    if sector >= Sectors(f) then []
    else (if Reclaimable(f, sector) then [Erase(sector)] else []) + ReclaimStepsFrom(f, sector + 1)
  }

  ghost function ReclaimSteps(f: Region): seq<Step> {
    ReclaimStepsFrom(f, 0)
  }

  /** Reclaiming has dealt with the sectors below `sector`. */
  ghost function PartlyReclaimed(f: Region, sector: nat): (g: Region)
    ensures |g| == |f|
  {
    seq(|f|, i requires 0 <= i < |f| => if i / 16 < sector && Reclaimable(f, i / 16) then Erased else f[i])
  }

  lemma PartlyReclaimedLoses(f: Region, sector: nat)
    ensures Loses(f, PartlyReclaimed(f, sector))
  {
    var g := PartlyReclaimed(f, sector);
    forall i | 0 <= i < |f| && (f[i].Active? || g[i].Active?) ensures f[i] == g[i] {
      assert f[i].Active? ==> HasActive(f, i / 16);
    }
    if Newest(f).Some? {
      assert HoldsNewest(f, Newest(f).value / 16);
    }
  }

  lemma EraseNext(f: Region, sector: nat)
    requires sector < Sectors(f) && Reclaimable(f, sector)
    ensures EraseSector(PartlyReclaimed(f, sector), sector) == PartlyReclaimed(f, sector + 1)
  {
    hide HasActive, Dirty, HoldsNewest;
    var g, h := EraseSector(PartlyReclaimed(f, sector), sector), PartlyReclaimed(f, sector + 1);
    forall i | 0 <= i < |f| ensures g[i] == h[i] {
      assert i / 16 == sector <==> 16 * sector <= i < 16 * sector + 16;
    }
  }

  lemma SkipNext(f: Region, sector: nat)
    requires !Reclaimable(f, sector)
    ensures PartlyReclaimed(f, sector) == PartlyReclaimed(f, sector + 1)
  {
    hide Reclaimable;
  }

  lemma NextEnabled(f: Region, sector: nat)
    requires sector < Sectors(f) && Reclaimable(f, sector)
    ensures Enabled(PartlyReclaimed(f, sector), Erase(sector))
  {
    var g := PartlyReclaimed(f, sector);
    PartlyReclaimedLoses(f, sector);
    LosingKeepsNewest(f, g);
    SectorUntouched(f, sector);
    hide PartlyReclaimed, HasActive, Dirty;
  }

  lemma {:induction false} ReclaimStepsFromRun(f: Region, sector: nat)
    requires sector <= Sectors(f)
    ensures AllEnabled(PartlyReclaimed(f, sector), ReclaimStepsFrom(f, sector))
    ensures DoAll(PartlyReclaimed(f, sector), ReclaimStepsFrom(f, sector)) == Reclaim(f)
    decreases Sectors(f) - sector
  {
    hide Reclaimable, Enabled, EraseSector;
    if sector == Sectors(f) {
      assert PartlyReclaimed(f, sector) == Reclaim(f);
    } else {
      ReclaimStepsFromRun(f, sector + 1);
      hide PartlyReclaimed, Reclaim;
      if Reclaimable(f, sector) {
        NextEnabled(f, sector);
        EraseNext(f, sector);
        assert ReclaimStepsFrom(f, sector)[1..] == ReclaimStepsFrom(f, sector + 1);
      } else {
        SkipNext(f, sector);
        assert ReclaimStepsFrom(f, sector) == ReclaimStepsFrom(f, sector + 1);
      }
    }
  }

  lemma ReclaimStepsRun(f: Region)
    ensures AllEnabled(f, ReclaimSteps(f))
    ensures DoAll(f, ReclaimSteps(f)) == Reclaim(f)
    ensures Loses(f, Reclaim(f))
  {
    assert PartlyReclaimed(f, 0) == f;
    ReclaimStepsFromRun(f, 0);
    PartlyReclaimedLoses(f, Sectors(f));
    assert PartlyReclaimed(f, Sectors(f)) == Reclaim(f);
  }

  lemma NothingReclaimed(f: Region)
    ensures PartlyReclaimed(f, 0) == f
    ensures PartlyReclaimed(f, Sectors(f)) == Reclaim(f)
    ensures ReclaimStepsFrom(f, Sectors(f)) == []
  {}

  lemma SectorUntouched(f: Region, sector: nat)
    ensures var g := PartlyReclaimed(f, sector);
            HasActive(g, sector) == HasActive(f, sector) && Dirty(g, sector) == Dirty(f, sector)
  {
    var g := PartlyReclaimed(f, sector);
    assert forall i :: 16 * sector <= i < 16 * sector + 16 && i < |f| ==> g[i] == f[i];
  }

  lemma ReclaimableIs(f: Region, sector: nat)
    ensures Reclaimable(f, sector) <==> !HasActive(f, sector) && Dirty(f, sector) && !HoldsNewest(f, sector)
  {}

  lemma Reassociate(a: seq<Step>, b: seq<Step>, c: seq<Step>)
    ensures a + (b + c) == (a + b) + c
  {}

  lemma VisitDone(f: Region, done: seq<Step>, sector: nat)
    requires sector < Sectors(f)
    requires DoAll(f, done) == PartlyReclaimed(f, sector)
    requires ReclaimSteps(f) == done + ReclaimStepsFrom(f, sector)
    ensures var step := if Reclaimable(f, sector) then [Erase(sector)] else [];
            DoAll(f, done + step) == PartlyReclaimed(f, sector + 1)
            && ReclaimSteps(f) == done + step + ReclaimStepsFrom(f, sector + 1)
  {
    hide Reclaimable, PartlyReclaimed, EraseSector, DoAll, ReclaimSteps;
    var rest := ReclaimStepsFrom(f, sector + 1);
    if Reclaimable(f, sector) {
      EraseNext(f, sector);
      DoAllAppend(f, done, [Erase(sector)]);
      DoOne(PartlyReclaimed(f, sector), Erase(sector));
      assert ReclaimStepsFrom(f, sector) == [Erase(sector)] + rest;
      Reassociate(done, [Erase(sector)], rest);
      hide ReclaimStepsFrom;
    } else {
      SkipNext(f, sector);
      assert ReclaimStepsFrom(f, sector) == [] + rest == rest;
      assert done + [] == done;
    }
  }

  lemma VisitCut(f: Region, done: seq<Step>, sector: nat, g: Region)
    requires sector < Sectors(f)
    requires ReclaimSteps(f) == done + ReclaimStepsFrom(f, sector)
    requires g == DoAll(f, done) || (Reclaimable(f, sector) && Torn(DoAll(f, done), Erase(sector), g))
    ensures Cut(f, ReclaimSteps(f), g)
  {
    hide Reclaimable, Torn;
    if g == DoAll(f, done) {
      CutAfter(f, done, ReclaimStepsFrom(f, sector), g);
    } else {
      TornAfter(f, done, Erase(sector), ReclaimStepsFrom(f, sector + 1), g);
    }
  }

  ghost predicate OnlyErases(steps: seq<Step>) {
    forall k :: 0 <= k < |steps| ==> steps[k].Erase?
  }

  lemma ReclaimOnlyErases(f: Region, sector: nat)
    ensures OnlyErases(ReclaimStepsFrom(f, sector))
    decreases Sectors(f) - sector
  {
    if sector < Sectors(f) {
      ReclaimOnlyErases(f, sector + 1);
    }
  }

  /** However far a list of erasures got, the contents and the newest record are as before. */
  lemma {:induction false} ErasuresCut(f: Region, steps: seq<Step>, g: Region)
    requires Sound(f) && OnlyErases(steps) && AllEnabled(f, steps) && Cut(f, steps, g)
    ensures Sound(g) && Contents(g) == Contents(f) && MaxSequence(g) == MaxSequence(f)
    decreases steps
  {
    if g != f {
      hide Sound, Contents, MaxSequence, Do, Torn;
      var h := Do(f, steps[0]);
      StepEffect(f, steps[0], h);
      if Torn(f, steps[0], g) {
        StepEffect(f, steps[0], g);
      } else {
        ErasuresCut(h, steps[1..], g);
      }
    }
  }

  lemma ReclaimCut(f: Region, g: Region)
    requires Sound(f) && Cut(f, ReclaimSteps(f), g)
    ensures Sound(g) && Contents(g) == Contents(f) && MaxSequence(g) == MaxSequence(f)
  {
    ReclaimStepsRun(f);
    ReclaimOnlyErases(f, 0);
    ErasuresCut(f, ReclaimSteps(f), g);
  }

  lemma ReclaimEffect(f: Region)
    requires Sound(f)
    ensures Sound(Reclaim(f)) && Contents(Reclaim(f)) == Contents(f)
    ensures MaxSequence(Reclaim(f)) == MaxSequence(f) && ActiveCount(Reclaim(f)) == ActiveCount(f)
  {
    ReclaimStepsRun(f);
    LosingKeepsSound(f, Reclaim(f));
    LosingKeepsNewest(f, Reclaim(f));
  }

  // ----- acknowledging

  ghost function AcknowledgeSteps(f: Region): seq<Step> {
    match Oldest(f)
    case None => []
    case Some(i) => [Retire(i)] + ReclaimSteps(RetireAt(f, i))
  }

  ghost function Acknowledge(q: Queue): (Queue, Option<Record>)
    requires Consistent(q)
  {
    match Oldest(q.slots)
    case None => (q, None)
    case Some(i) =>
      assert q.depth > 0;
      (q.(slots := Reclaim(RetireAt(q.slots, i)), depth := q.depth - 1), Some(q.slots[i].record))
  }

  // ----- appending

  /** A full queue drops its oldest record first. */
  ghost function EvictSteps(q: Queue): seq<Step> {
    if q.depth == Capacity(q.slots) then AcknowledgeSteps(q.slots) else []
  }

  ghost function Evict(q: Queue): Queue
    requires Consistent(q)
  {
    if q.depth == Capacity(q.slots) then
      Acknowledge(q).0.(dropped := SaturatingIncrement(q.dropped))
    else q
  }

  ghost function PutSteps(f: Region, r: Record): seq<Step> {
    match FirstErased(f)
    case None => []
    case Some(i) => [Put(i, r)] + ReclaimSteps(Do(f, Put(i, r)))
  }

  ghost function AppendSteps(q: Queue, m: Measurement): seq<Step>
    requires Consistent(q)
  {
    EvictSteps(q) + PutSteps(Evict(q).slots, Record(q.next, m))
  }

  /** The sequence is spent even when no slot is found. */
  ghost function Append(q: Queue, m: Measurement): (Queue, Result<Record, QueueError>)
    requires Consistent(q)
  {
    var e := Evict(q);
    var r := Record(e.next, m);
    var spent := e.(next := WrappingIncrement(e.next));
    match FirstErased(e.slots)
    case None => (spent, Err(InvalidGeometry))
    case Some(i) =>
      (spent.(slots := Reclaim(Do(e.slots, Put(i, r))), depth := e.depth + 1), Ok(r))
  }

  /** What a full queue keeps when one more record comes in. */
  ghost function Remaining(q: Queue): seq<Record> {
    if q.depth == Capacity(q.slots) && Contents(q.slots) != [] then Contents(q.slots)[1..] else Contents(q.slots)
  }

  /** Where a storage error can leave an append: before the eviction is done, with nothing spent, or
      after it, with the sequence spent and the eviction counted. */
  ghost predicate AppendFailed(q: Queue, m: Measurement, p: Queue)
    requires Consistent(q)
  {
    || (q.depth == Capacity(q.slots) && p.next == q.next && p.dropped == q.dropped
        && Cut(q.slots, AcknowledgeSteps(q.slots), p.slots))
    || (p.next == WrappingIncrement(q.next) && p.dropped == Evict(q).dropped
        && Cut(Evict(q).slots, PutSteps(Evict(q).slots, Record(q.next, m)), p.slots))
  }

  lemma FailedEvicting(q: Queue, m: Measurement, p: Queue)
    requires Consistent(q) && q.depth == Capacity(q.slots) && p.next == q.next && p.dropped == q.dropped
    requires Cut(q.slots, AcknowledgeSteps(q.slots), p.slots)
    ensures AppendFailed(q, m, p)
  {}

  lemma FailedPlacing(q: Queue, m: Measurement, p: Queue)
    requires Consistent(q) && p.next == WrappingIncrement(q.next) && p.dropped == Evict(q).dropped
    requires Cut(Evict(q).slots, PutSteps(Evict(q).slots, Record(q.next, m)), p.slots)
    ensures AppendFailed(q, m, p)
  {}

  lemma CountersDoNotMatter(q: Queue, dropped: u64)
    ensures Good(q) == Good(q.(dropped := dropped))
  {}

  // ----- recovering

  ghost function NextAfter(f: Region): u64 {
    var newest := Newest(f);
    if newest == None then 0 else WrappingIncrement(f[newest.value].Sequence())
  }

  ghost function Recover(f: Region): Queue {
    Queue(Reclaim(f), ActiveCount(f), NextAfter(f), 0)
  }

  // ----- the steps lead where the functions say

  lemma AcknowledgeRuns(q: Queue)
    requires Consistent(q)
    ensures DoAll(q.slots, AcknowledgeSteps(q.slots)) == Acknowledge(q).0.slots
    ensures AllEnabled(q.slots, AcknowledgeSteps(q.slots))
    ensures Consistent(Acknowledge(q).0)
  {
    if Oldest(q.slots).Some? {
      var i := Oldest(q.slots).value;
      var g := RetireAt(q.slots, i);
      ReclaimStepsRun(g);
      assert AcknowledgeSteps(q.slots)[1..] == ReclaimSteps(g);
      SameActiveCount(g, Reclaim(g), |g|);
    }
  }

  lemma AcknowledgeEffect(q: Queue)
    requires Good(q)
    ensures var (p, r) := Acknowledge(q);
            Good(p) && MaxSequence(p.slots) == MaxSequence(q.slots) && p.next == q.next && p.dropped == q.dropped
            && if Contents(q.slots) == [] then r == None && p == q
               else r == Some(Contents(q.slots)[0]) && Contents(p.slots) == Contents(q.slots)[1..]
  {
    if Oldest(q.slots).Some? {
      var i := Oldest(q.slots).value;
      RetireKeepsSound(q.slots, i);
      ReclaimEffect(RetireAt(q.slots, i));
    }
  }

  lemma PutRuns(f: Region, r: Record)
    requires FirstErased(f).Some?
    ensures var g := Do(f, Put(FirstErased(f).value, r));
            DoAll(f, PutSteps(f, r)) == Reclaim(g) && AllEnabled(g, ReclaimSteps(g))
            && PutSteps(f, r)[1..] == ReclaimSteps(g) && ActiveCount(Reclaim(g)) == ActiveCount(f) + 1
  {
    var i := FirstErased(f).value;
    var g := Do(f, Put(i, r));
    ReclaimStepsRun(g);
    CountAfterUpdate(f, i, g[i], |f|);
    SameActiveCount(g, Reclaim(g), |g|);
  }

  lemma AppendRuns(q: Queue, m: Measurement)
    requires Consistent(q)
    ensures DoAll(q.slots, AppendSteps(q, m)) == Append(q, m).0.slots
    ensures Consistent(Append(q, m).0)
    ensures Consistent(Evict(q)) && DoAll(q.slots, EvictSteps(q)) == Evict(q).slots
  {
    var e := Evict(q);
    AcknowledgeRuns(q);
    DoAllAppend(q.slots, EvictSteps(q), PutSteps(e.slots, Record(q.next, m)));
    if FirstErased(e.slots).Some? {
      PutRuns(e.slots, Record(q.next, m));
    }
  }

  /** A full queue loses its oldest record and nothing else, and then there is room. */
  lemma EvictEffect(q: Queue)
    requires Good(q)
    ensures var e := Evict(q);
            Good(e) && e.next == q.next && MaxSequence(e.slots) == MaxSequence(q.slots)
            && ActiveCount(e.slots) < Capacity(e.slots)
            && Contents(e.slots) == (if q.depth == Capacity(q.slots) then Contents(q.slots)[1..] else Contents(q.slots))
    ensures q.depth == Capacity(q.slots) ==> Contents(q.slots) != []
  {
    AcknowledgeEffect(q);
  }

  lemma AppendEnabled(q: Queue, m: Measurement)
    requires Good(q)
    ensures AllEnabled(q.slots, AppendSteps(q, m))
  {
    var e, r := Evict(q), Record(q.next, m);
    EvictEffect(q);
    AcknowledgeRuns(q);
    if FirstErased(e.slots).Some? {
      PutRuns(e.slots, r);
      assert Enabled(e.slots, Put(FirstErased(e.slots).value, r));
    }
    EnabledAppend(q.slots, EvictSteps(q), PutSteps(e.slots, r));
  }

  /** Append is enqueue, after dropping the oldest if full; it fails only for want of a slot. */
  lemma AppendEffect(q: Queue, m: Measurement)
    requires Good(q) && q.next + 1 < TWO_TO_THE_64
    ensures var (p, r) := Append(q, m); var e := Evict(q);
            Good(p) && p.next == q.next + 1 &&
            match r
            case Ok(record) =>
              record == Record(q.next, m) && MaxSequence(p.slots) == q.next
              && Contents(p.slots) == Contents(e.slots) + [StoredRecord(record)]
            case Err(error) => error == InvalidGeometry && p == e.(next := q.next + 1)
  {
    hide Sound, Contents, MaxSequence, Evict, ActiveCount, Reclaim;
    var e, r := Evict(q), Record(q.next, m);
    EvictEffect(q);
    if FirstErased(e.slots).Some? {
      var i := FirstErased(e.slots).value;
      PutKeepsSound(e.slots, i, r);
      ReclaimEffect(Do(e.slots, Put(i, r)));
      PutRuns(e.slots, r);
    }
  }

  lemma RecoverEffect(f: Region)
    requires Sound(f) && MaxSequence(f) + 1 < TWO_TO_THE_64
    ensures Good(Recover(f)) && Contents(Recover(f).slots) == Contents(f)
    ensures Recover(f).next == MaxSequence(f) + 1 == MaxSequence(Recover(f).slots) + 1
    ensures Recover(f).depth == |Contents(f)|
  {
    ReclaimEffect(f);
  }
}
