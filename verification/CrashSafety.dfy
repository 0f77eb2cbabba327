/** What a reboot finds after the power failed anywhere inside an operation. */
module CrashSafety {
  import opened Types
  import opened Slots
  import opened Fifo
  import opened FlashSteps
  import opened QueueModel

  // ----- reclaiming is complete and idempotent

  /** No sector is left to erase. */
  ghost predicate Reclaimed(f: Region) {
    forall s :: 0 <= s < Sectors(f) ==> SectorErased(f, s) || HasActive(f, s) || HoldsNewest(f, s)
  }

  lemma SectorBounds(i: nat, s: nat)
    requires 16 * s <= i < 16 * s + 16
    ensures i / 16 == s
  {}

  lemma ReclaimKeepsSector(f: Region, s: nat)
    requires !Reclaimable(f, s)
    ensures forall i :: 16 * s <= i < 16 * s + 16 && i < |f| ==> Reclaim(f)[i] == f[i]
  {
    hide Reclaimable;
    forall i | 16 * s <= i < 16 * s + 16 && i < |f| ensures Reclaim(f)[i] == f[i] {
      SectorBounds(i, s);
    }
  }

  lemma ReclaimErasesSector(f: Region, s: nat)
    requires Reclaimable(f, s)
    ensures SectorErased(Reclaim(f), s)
  {
    hide Reclaimable;
    forall i | 16 * s <= i < 16 * s + 16 && i < |f| ensures Reclaim(f)[i].Erased? {
      SectorBounds(i, s);
    }
  }

  lemma ReclaimSettles(f: Region)
    ensures Reclaimed(Reclaim(f))
  {
    var g := Reclaim(f);
    ReclaimStepsRun(f);
    LosingKeepsNewest(f, g);
    forall s | 0 <= s < Sectors(g) ensures SectorErased(g, s) || HasActive(g, s) || HoldsNewest(g, s) {
      if Reclaimable(f, s) {
        ReclaimErasesSector(f, s);
      } else {
        ReclaimKeepsSector(f, s);
        if HasActive(f, s) {
          var i :| 16 * s <= i < 16 * s + 16 && i < |f| && f[i].Active?;
          assert g[i].Active?;
        }
      }
    }
  }

  lemma ReclaimedIsFixed(f: Region)
    requires Reclaimed(f)
    ensures Reclaim(f) == f && ReclaimSteps(f) == []
  {
    forall s | 0 <= s < Sectors(f) ensures !Reclaimable(f, s) {
      assert SectorErased(f, s) || HasActive(f, s) || HoldsNewest(f, s);
    }
    hide Reclaimable;
    assert forall i :: 0 <= i < |f| ==> Reclaim(f)[i] == f[i];
    NothingToErase(f, 0);
  }

  lemma NothingToErase(f: Region, sector: nat)
    requires forall s :: 0 <= s < Sectors(f) ==> !Reclaimable(f, s)
    ensures ReclaimStepsFrom(f, sector) == []
    decreases Sectors(f) - sector
  {
    if sector < Sectors(f) {
      NothingToErase(f, sector + 1);
    }
  }

  /** Reclaiming keeps every Active slot in place and the largest sequence, leaves every sector
      wholly erased, in use or holding the newest record, and has nothing to do a second time. */
  lemma ReclaimContract(f: Region)
    ensures SameActive(f, Reclaim(f)) && MaxSequence(Reclaim(f)) == MaxSequence(f)
    ensures Reclaimed(Reclaim(f))
    ensures Reclaim(Reclaim(f)) == Reclaim(f) && ReclaimSteps(Reclaim(f)) == []
  {
    ReclaimStepsRun(f);
    LosingKeepsNewest(f, Reclaim(f));
    ReclaimSettles(f);
    ReclaimedIsFixed(Reclaim(f));
  }

  // ----- interrupted reclaiming

  /** The two regions differ only inside sectors that `f` would erase, where nothing decodable
      appeared; so the sectors still to be erased are the same ones. */
  ghost predicate PartOfReclaim(f: Region, g: Region) {
    Loses(f, g)
    && forall i :: 0 <= i < |f| ==> g[i] == f[i] || Reclaimable(f, i / 16)
  }

  lemma SameSector(f: Region, g: Region, s: nat)
    requires PartOfReclaim(f, g) && !Reclaimable(f, s)
    ensures !Reclaimable(g, s)
    ensures forall i :: 16 * s <= i < 16 * s + 16 && i < |f| ==> g[i] == f[i]
  {
    LosingKeepsNewest(f, g);
    forall i | 16 * s <= i < 16 * s + 16 && i < |f| ensures g[i] == f[i] {
      SectorBounds(i, s);
    }
    if HasActive(f, s) {
      var i :| 16 * s <= i < 16 * s + 16 && i < |f| && f[i].Active?;
      assert g[i].Active?;
    }
  }

  lemma ErasedOrStillReclaimable(f: Region, g: Region, s: nat)
    requires PartOfReclaim(f, g) && Reclaimable(f, s)
    ensures SectorErased(g, s) || Reclaimable(g, s)
  {
    LosingKeepsNewest(f, g);
    assert forall i :: 16 * s <= i < 16 * s + 16 && i < |f| ==> !f[i].Active? && !g[i].Active?;
    if !SectorErased(g, s) {
      var i :| 16 * s <= i < 16 * s + 16 && i < |g| && !g[i].Erased?;
      assert g[i].Acknowledged? || g[i].Corrupt?;
    }
  }

  lemma PartOfReclaimFinishes(f: Region, g: Region)
    requires PartOfReclaim(f, g)
    ensures Reclaim(g) == Reclaim(f)
  {
    forall i | 0 <= i < |f| ensures Reclaim(g)[i] == Reclaim(f)[i] {
      var s := i / 16;
      if Reclaimable(f, s) {
        ErasedOrStillReclaimable(f, g, s);
        hide Reclaimable;
      } else {
        SameSector(f, g, s);
        hide Reclaimable;
      }
    }
  }

  ghost predicate ErasesOnlyReclaimable(f: Region, steps: seq<Step>) {
    forall k :: 0 <= k < |steps| ==> steps[k].Erase? && Reclaimable(f, steps[k].sector)
  }

  lemma ReclaimStepsAreReclaimable(f: Region, sector: nat)
    ensures ErasesOnlyReclaimable(f, ReclaimStepsFrom(f, sector))
    decreases Sectors(f) - sector
  {
    hide Reclaimable;
    if sector < Sectors(f) {
      ReclaimStepsAreReclaimable(f, sector + 1);
    }
  }

  lemma TornErasureIsPart(f: Region, g: Region, s: nat, h: Region)
    requires PartOfReclaim(f, g) && Reclaimable(f, s) && Torn(g, Erase(s), h)
    ensures PartOfReclaim(f, h)
  {
    forall i | 0 <= i < |f| && (f[i].Active? || h[i].Active?) ensures f[i] == h[i] {
      if 16 * s <= i < 16 * s + 16 {
        assert !f[i].Active?;
      }
    }
    forall i | 0 <= i < |f| ensures h[i] == f[i] || Reclaimable(f, i / 16) {
      if 16 * s <= i < 16 * s + 16 {
        SectorBounds(i, s);
      }
    }
  }

  lemma {:induction false} CutErasuresArePart(f: Region, g: Region, steps: seq<Step>, h: Region)
    requires PartOfReclaim(f, g) && ErasesOnlyReclaimable(f, steps) && Cut(g, steps, h)
    ensures PartOfReclaim(f, h)
    decreases steps
  {
    hide PartOfReclaim, Reclaimable;
    if h != g {
      var s := steps[0].sector;
      EraseIsTorn(g, s);
      TornErasureIsPart(f, g, s, Do(g, steps[0]));
      if Torn(g, steps[0], h) {
        TornErasureIsPart(f, g, s, h);
      } else {
        CutErasuresArePart(f, Do(g, steps[0]), steps[1..], h);
      }
    }
  }

  lemma ReclaimCutKeepsActive(f: Region, g: Region)
    requires Cut(f, ReclaimSteps(f), g)
    ensures SameActive(f, g)
  {
    ReclaimStepsAreReclaimable(f, 0);
    CutErasuresArePart(f, f, ReclaimSteps(f), g);
  }

  /** Recovery cut short anywhere in its erasures and run again ends where an uninterrupted
      recovery would have: the same slots, depth and next sequence. */
  lemma RecoveryIdempotent(f: Region, g: Region)
    requires Cut(f, ReclaimSteps(f), g)
    ensures Recover(g) == Recover(f)
  {
    ReclaimStepsAreReclaimable(f, 0);
    CutErasuresArePart(f, f, ReclaimSteps(f), g);
    PartOfReclaimFinishes(f, g);
    LosingKeepsNewest(f, g);
    SameActiveCount(f, g, |f|);
  }

  // ----- power cuts

  datatype Call = CallAppend(reading: Measurement) | CallAcknowledge | CallRecover

  ghost function StepsOf(q: Queue, call: Call): seq<Step>
    requires Consistent(q)
  {
    match call
    case CallAppend(m) => AppendSteps(q, m)
    case CallAcknowledge => AcknowledgeSteps(q.slots)
    case CallRecover => ReclaimSteps(q.slots)
  }

  ghost function After(q: Queue, call: Call): Queue
    requires Consistent(q)
  {
    match call
    case CallAppend(m) => Append(q, m).0
    case CallAcknowledge => Acknowledge(q).0
    case CallRecover => Recover(q.slots)
  }

  lemma AcknowledgeCut(q: Queue, g: Region)
    requires Good(q) && Cut(q.slots, AcknowledgeSteps(q.slots), g)
    ensures Sound(g) && MaxSequence(g) == MaxSequence(q.slots)
    ensures Contents(g) == Contents(q.slots) || Contents(g) == Contents(Acknowledge(q).0.slots)
  {
    if g != q.slots {
      var i := Oldest(q.slots).value;
      var h := RetireAt(q.slots, i);
      RetireKeepsSound(q.slots, i);
      ReclaimEffect(h);
      assert AcknowledgeSteps(q.slots)[1..] == ReclaimSteps(h);
      if !Torn(q.slots, Retire(i), g) {
        ReclaimCut(h, g);
      }
    }
  }

  /** Before anything is issued: where it would lead, and that nothing is lost yet. */
  lemma CutOfAcknowledge(q: Queue)
    requires Consistent(q)
    ensures Cut(q.slots, AcknowledgeSteps(q.slots), q.slots)
    ensures Good(q) ==>
              var (p, r) := Acknowledge(q);
              Good(p) &&
              match r
              case None => Contents(q.slots) == [] && p == q
              case Some(record) => Contents(q.slots) == [record] + Contents(p.slots)
  {
    if Good(q) {
      AcknowledgeEffect(q);
    }
  }

  lemma RetireCutRest(q: Queue, i: nat, g: Region)
    requires Consistent(q) && Oldest(q.slots) == Some(i)
    requires Cut(RetireAt(q.slots, i), ReclaimSteps(RetireAt(q.slots, i)), g)
    ensures Cut(q.slots, AcknowledgeSteps(q.slots), g)
    ensures Good(q) && q.depth == ActiveCount(g) + 1 ==> Good(q.(slots := g, depth := q.depth - 1))
  {
    assert AcknowledgeSteps(q.slots)[1..] == ReclaimSteps(RetireAt(q.slots, i));
    if Good(q) {
      AcknowledgeCut(q, g);
    }
  }

  lemma PutCut(f: Region, r: Record, g: Region)
    requires Sound(f) && MaxSequence(f) < r.sequence && ActiveCount(f) < Capacity(f)
    requires Cut(f, PutSteps(f, r), g)
    ensures Sound(g) && (MaxSequence(g) == MaxSequence(f) || MaxSequence(g) == r.sequence)
    ensures Contents(g) == Contents(f)
            || (FirstErased(f).Some? && Contents(g) == Contents(f) + [StoredRecord(r)])
  {
    if g != f {
      hide Sound, Contents, MaxSequence, NewestBelow, OldestBelow, Loses;
      var i := FirstErased(f).value;
      var h := Do(f, Put(i, r));
      PutKeepsSound(f, i, r);
      PutRuns(f, r);
      if g == f[i := Corrupt] {
        CorruptLoses(f, i);
        LosingKeepsSound(f, g);
        LosingKeepsNewest(f, g);
      } else if g != h {
        ReclaimCut(h, g);
      }
    }
  }

  lemma AppendCut(q: Queue, m: Measurement, g: Region)
    requires Good(q) && q.next + 1 < TWO_TO_THE_64 && Cut(q.slots, AppendSteps(q, m), g)
    ensures Sound(g) && (MaxSequence(g) == MaxSequence(q.slots) || MaxSequence(g) == q.next)
    ensures Contents(g) == Contents(q.slots) || Contents(g) == Contents(Append(q, m).0.slots)
            || (q.depth == Capacity(q.slots) && Contents(q.slots) != [] && Contents(g) == Contents(q.slots)[1..])
  {
    hide Sound, Contents, Cut, MaxSequence;
    var e, r := Evict(q), Record(q.next, m);
    EvictEffect(q);
    AppendEffect(q, m);
    AppendRuns(q, m);
    CutAppend(q.slots, EvictSteps(q), PutSteps(e.slots, r), g);
    if Cut(q.slots, EvictSteps(q), g) {
      if q.depth == Capacity(q.slots) {
        AcknowledgeCut(q, g);
      } else {
        CutOfNothing(q.slots, g);
      }
    } else {
      PutCut(e.slots, r, g);
    }
  }

  /** The contents an append can leave, finished, refused or cut: nothing happened yet, the eviction
      did, or the record is in. */
  lemma AppendLeaves(q: Queue, m: Measurement, g: Region)
    requires Good(q) && q.next + 1 < TWO_TO_THE_64
    requires Cut(q.slots, AppendSteps(q, m), g) || g == Append(q, m).0.slots
    ensures Contents(g) == Contents(q.slots) || Contents(g) == Remaining(q)
            || Contents(g) == Remaining(q) + [StoredRecord(Record(q.next, m))]
  {
    hide Sound, Contents, Cut, MaxSequence, Append, AppendSteps;
    AppendEffect(q, m);
    EvictEffect(q);
    if g != Append(q, m).0.slots {
      AppendCut(q, m, g);
    }
  }

  lemma CutOfNone(f: Region)
    ensures Cut(f, ReclaimSteps(f), f)
  {}

  lemma CutOfNothing(f: Region, g: Region)
    requires Cut(f, [], g)
    ensures g == f
  {}

  lemma CutOfPut(f: Region, r: Record)
    ensures Cut(f, PutSteps(f, r), f)
    ensures FirstErased(f).Some? ==>
              var i := FirstErased(f).value;
              PutSteps(f, r) == [Put(i, r)] + ReclaimSteps(Do(f, Put(i, r)))
              && ActiveCount(Do(f, Put(i, r))) == ActiveCount(f) + 1
              && Cut(f, PutSteps(f, r), f[i := Corrupt]) && ActiveCount(f[i := Corrupt]) == ActiveCount(f)
  {
    if FirstErased(f).Some? {
      var i := FirstErased(f).value;
      CountAfterUpdate(f, i, Active(StoredRecord(r)), |f|);
      CountAfterUpdate(f, i, Corrupt, |f|);
      assert Torn(f, Put(i, r), f[i := Corrupt]);
    }
  }

  lemma PutCutRest(f: Region, r: Record, g: Region)
    requires FirstErased(f).Some?
    requires var h := Do(f, Put(FirstErased(f).value, r)); Cut(h, ReclaimSteps(h), g)
    ensures Cut(f, PutSteps(f, r), g)
  {
    var h := Do(f, Put(FirstErased(f).value, r));
    assert PutSteps(f, r)[1..] == ReclaimSteps(h);
  }

  /** Where an append leads when nothing goes wrong. */
  lemma AppendPlan(q: Queue, m: Measurement)
    requires Consistent(q)
    ensures var e, r := Evict(q), Record(q.next, m);
            Consistent(e) && e.next == q.next && AppendSteps(q, m) == EvictSteps(q) + PutSteps(e.slots, r)
            && Append(q, m) ==
               match FirstErased(e.slots)
               case None => (e.(next := WrappingIncrement(q.next)), Err(InvalidGeometry))
               case Some(i) =>
                 (Queue(Reclaim(Do(e.slots, Put(i, r))), e.depth + 1, WrappingIncrement(q.next), e.dropped), Ok(r))
  {
    AppendRuns(q, m);
    hide Consistent, Reclaim, EvictSteps, PutSteps, Do, FirstErased, DoAll;
  }

  lemma EvictIs(q: Queue)
    requires Consistent(q)
    ensures q.depth == Capacity(q.slots) ==>
              EvictSteps(q) == AcknowledgeSteps(q.slots)
              && Evict(q) == Acknowledge(q).0.(dropped := SaturatingIncrement(q.dropped))
    ensures q.depth != Capacity(q.slots) ==> EvictSteps(q) == [] && Evict(q) == q
  {}

  lemma AppendMeaning(q: Queue, m: Measurement)
    requires Good(q) && q.next + 1 < TWO_TO_THE_64
    ensures var (p, r) := Append(q, m);
            Good(p) && p.next == q.next + 1
            && (r.Ok? ==> r.value == Record(q.next, m))
            && (r.Ok? ==> Contents(p.slots) == Remaining(q) + [StoredRecord(r.value)])
  {
    hide Good, Contents, MaxSequence, Append;
    AppendEffect(q, m);
    EvictEffect(q);
  }

  /** The eviction did not finish. */
  lemma EvictCut(q: Queue, m: Measurement, g: Region)
    requires Consistent(q) && q.depth == Capacity(q.slots) && Cut(q.slots, AcknowledgeSteps(q.slots), g)
    ensures Cut(q.slots, AppendSteps(q, m), g)
  {
    CutAppend(q.slots, EvictSteps(q), PutSteps(Evict(q).slots, Record(q.next, m)), g);
  }

  /** The record did not get all the way in. */
  lemma PlaceCut(q: Queue, m: Measurement, g: Region)
    requires Consistent(q) && Cut(Evict(q).slots, PutSteps(Evict(q).slots, Record(q.next, m)), g)
    ensures Cut(q.slots, AppendSteps(q, m), g)
    ensures Good(q) && q.next + 1 < TWO_TO_THE_64 ==>
              forall p: Queue :: p.slots == g && Consistent(p) && p.next == q.next + 1 ==> Good(p)
  {
    AppendRuns(q, m);
    CutAppend(q.slots, EvictSteps(q), PutSteps(Evict(q).slots, Record(q.next, m)), g);
    if Good(q) && q.next + 1 < TWO_TO_THE_64 {
      AppendCut(q, m, g);
    }
  }

  /** Crash refinement: whatever the cut leaves, the next recovery starts a queue that holds
      exactly what was waiting before the operation, or after it, or, if an append found the
      queue full, what was waiting before without its oldest record. */
  lemma CrashRefinement(q: Queue, call: Call, g: Region)
    requires Good(q) && q.next + 1 < TWO_TO_THE_64 && Cut(q.slots, StepsOf(q, call), g)
    ensures Good(Recover(g)) && Recover(g).depth == |Contents(g)| && Recover(g).next == MaxSequence(g) + 1
    ensures MaxSequence(q.slots) <= MaxSequence(Recover(g).slots)
    ensures Contents(Recover(g).slots) == Contents(g)
    ensures var before := Contents(q.slots);
            Contents(g) == before || Contents(g) == Contents(After(q, call).slots)
            || (call.CallAppend? && q.depth == Capacity(q.slots) && before != [] && Contents(g) == before[1..])
  {
    match call
    case CallAppend(m) => AppendCut(q, m, g); RecoverEffect(g);
    case CallAcknowledge => AcknowledgeCut(q, g); RecoverEffect(g);
    case CallRecover => ReclaimCut(q.slots, g); RecoverEffect(g);
  }
}
