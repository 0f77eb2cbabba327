/** The queue itself, over the bytes of the device. A reported storage error leaves what a power
    cut could have left, and the counters in RAM still agree with the flash. */
module FlashQueue {
  import opened Types
  import opened Bytes
  import RecordCodec
  import opened NorFlash
  import opened Slots
  import opened Fifo
  import opened FlashSteps
  import opened QueueModel
  import opened CrashSafety
  import opened FlashImage

  datatype RecoveryReport = RecoveryReport(depth: nat, corruptRecords: nat, nextSequence: u64)

  /** The geometry the constructor accepts. */
  predicate GoodGeometry(capacity: nat, start: nat, length: nat, writeSize: nat, eraseSize: nat) {
    && length >= 2 * ERASE_SIZE
    && start + length < TWO_TO_THE_32
    && start + length <= capacity
    && start % ERASE_SIZE == 0
    && length % ERASE_SIZE == 0
    && eraseSize == ERASE_SIZE
    && writeSize == 1
  }

  ghost predicate OnSectors(start: nat, length: nat, base: nat, sectors: nat) {
    start == 4096 * base && length == 4096 * sectors
  }

  /** That is: two or more whole sectors that end within the flash and below 2^32, bytes that can be
      written one by one, and the sector size the firmware was built for. */
  lemma GoodGeometryIff(capacity: nat, start: nat, length: nat, writeSize: nat, eraseSize: nat)
    ensures GoodGeometry(capacity, start, length, writeSize, eraseSize) <==>
            && writeSize == 1 && eraseSize == 4096
            && exists base: nat, sectors: nat :: OnSectors(start, length, base, sectors)
                 && sectors >= 2 && start + length <= capacity && start + length < 0x1_0000_0000
  {
    if GoodGeometry(capacity, start, length, writeSize, eraseSize) {
      assert OnSectors(start, length, start / 4096, length / 4096);
    }
    if exists base: nat, sectors: nat :: OnSectors(start, length, base, sectors) {
      var base: nat, sectors: nat :| OnSectors(start, length, base, sectors);
      assert start % 4096 == 0 && length % 4096 == 0;
    }
  }

  /** The firmware's own region, the last quarter megabyte of four, is accepted. */
  lemma FirmwareRegion()
    ensures GoodGeometry(0x40_0000, 0x3c_0000, 0x4_0000, 1, 4096)
  {
    assert OnSectors(0x3c_0000, 0x4_0000, 0x3c0, 64);
    GoodGeometryIff(0x40_0000, 0x3c_0000, 0x4_0000, 1, 4096);
  }

  lemma SlotsInSectors(sectors: nat)
    ensures 4096 * sectors / 256 == 16 * sectors && 16 * sectors % 16 == 0 && 16 * sectors / 16 == sectors
  {}

  lemma GeometryFits(capacity: nat, start: nat, length: nat, writeSize: nat, eraseSize: nat)
    requires GoodGeometry(capacity, start, length, writeSize, eraseSize)
    ensures 256 * (length / 256) == length && length / 256 >= 32 && length / 256 % 16 == 0
    ensures length / ERASE_SIZE == length / 256 / 16
  {
    var sectors := length / 4096;
    assert length == 4096 * sectors && sectors >= 2;
    hide GoodGeometry;
    SlotsInSectors(sectors);
  }

  /** Body, then commit byte: the two operations of one record. */
  lemma RecordIssued(start: nat, a: Trace, slot: nat, record: Record, b: Trace, c: Trace)
    requires Issued(a, [Program(start + 256 * slot, Body(record))], b)
    requires Issued(b, [Program(start + 256 * slot, [RecordCodec.COMMITTED])], c)
    ensures IssuedSteps(start, a, [Put(slot, record)], c)
    ensures c.memory == ApplyAll(a.memory, Lower(start, Put(slot, record)))
  {
    var body, commit := Program(start + 256 * slot, Body(record)), Program(start + 256 * slot, [RecordCodec.COMMITTED]);
    hide Issued, ApplyAll, Body, Lower;
    PutIsTwo(start, slot, record);
    IssuedThen(a, [body], b, [commit], c);
    IssuedStep(start, a, Put(slot, record), c);
    IssuedMemory(a, Lower(start, Put(slot, record)), c);
  }

  lemma PutIsTwo(start: nat, slot: nat, record: Record)
    ensures [Program(start + 256 * slot, Body(record))] + [Program(start + 256 * slot, [RecordCodec.COMMITTED])]
            == Lower(start, Put(slot, record))
  {
    hide Body;
  }

  lemma BodyCutShort(start: nat, a: Trace, slot: nat, record: Record, b: Trace)
    requires TornOp(a.memory, Program(start + 256 * slot, Body(record)), b.memory)
    ensures CutShort(start, a, [Put(slot, record)], b)
  {
    hide TornOp, Apply, Body, CutShort;
    CutShortStep(start, a, Put(slot, record), b);
  }

  lemma CommitCutShort(start: nat, a: Trace, slot: nat, record: Record, b: Trace, c: Trace)
    requires Issued(a, [Program(start + 256 * slot, Body(record))], b) && c.memory == b.memory
    ensures CutShort(start, a, [Put(slot, record)], c)
  {
    hide TornOp, Apply, Body, CutShort, Lower;
    PutIsTwo(start, slot, record);
    CutOpsLater(a.memory, [Program(start + 256 * slot, Body(record))],
                [Program(start + 256 * slot, [RecordCodec.COMMITTED])], c.memory);
    CutShortStep(start, a, Put(slot, record), c);
  }

  lemma EraseCutShort(start: nat, a: Trace, sector: nat, b: Trace)
    requires TornOp(a.memory, EraseRange(start + 4096 * sector, start + 4096 * sector + 4096), b.memory)
    ensures CutShort(start, a, [Erase(sector)], b)
  {
    hide TornOp, Apply, CutShort;
    CutShortStep(start, a, Erase(sector), b);
  }

  lemma IssuedMemory(a: Trace, ops: seq<FlashOp>, b: Trace)
    requires Issued(a, ops, b)
    ensures b.memory == ApplyAll(a.memory, ops)
  {}

  // ----- the bookkeeping of the reclaim loop

  ghost function ReclaimStep(f: Slots.Region, sector: nat): seq<Step> {
    if Reclaimable(f, sector) then [Erase(sector)] else []
  }

  /** The steps done so far, the ones to come, and the operations already issued. */
  ghost predicate Progress(start: nat, f: Slots.Region, a: Trace, done: seq<Step>, sector: nat, b: Trace) {
    && DoAll(f, done) == PartlyReclaimed(f, sector)
    && ReclaimSteps(f) == done + ReclaimStepsFrom(f, sector)
    && IssuedSteps(start, a, done, b)
  }

  lemma ProgressStarts(start: nat, f: Slots.Region, a: Trace) returns (done: seq<Step>)
    ensures Progress(start, f, a, done, 0, a) && PartlyReclaimed(f, 0) == f
  {
    done := [];
    NothingReclaimed(f);
    DoNone(f);
    IssuedNoSteps(start, a);
    hide PartlyReclaimed, IssuedSteps;
  }

  lemma ProgressGoesOn(start: nat, f: Slots.Region, a: Trace, done: seq<Step>, sector: nat, b: Trace, c: Trace)
    returns (more: seq<Step>)
    requires sector < Sectors(f) && Progress(start, f, a, done, sector, b)
    requires IssuedSteps(start, b, ReclaimStep(f, sector), c)
    ensures Progress(start, f, a, more, sector + 1, c)
  {
    hide Reclaimable, PartlyReclaimed, IssuedSteps, DoAll, ReclaimSteps, ReclaimStepsFrom;
    more := done + ReclaimStep(f, sector);
    VisitDone(f, done, sector);
    IssuedStepsThen(start, a, done, b, ReclaimStep(f, sector), c);
  }

  lemma StepThenRest(f: Slots.Region, sector: nat)
    requires sector < Sectors(f)
    ensures ReclaimStepsFrom(f, sector) == ReclaimStep(f, sector) + ReclaimStepsFrom(f, sector + 1)
  {
    hide Reclaimable;
  }

  lemma ProgressCut(start: nat, f: Slots.Region, a: Trace, done: seq<Step>, sector: nat, b: Trace, g: Slots.Region, c: Trace)
    requires sector < Sectors(f) && Progress(start, f, a, done, sector, b)
    requires g == PartlyReclaimed(f, sector)
             || (Reclaimable(f, sector) && Torn(PartlyReclaimed(f, sector), Erase(sector), g))
    requires CutShort(start, b, ReclaimStep(f, sector), c)
    ensures Cut(f, ReclaimSteps(f), g) && SameActive(f, g)
    ensures CutShort(start, a, ReclaimSteps(f), c)
  {
    hide Reclaimable, PartlyReclaimed, IssuedSteps, CutShort, DoAll, ReclaimSteps, ReclaimStepsFrom, Torn, Cut;
    VisitCut(f, done, sector, g);
    ReclaimCutKeepsActive(f, g);
    StepThenRest(f, sector);
    CutShortBefore(start, b, ReclaimStep(f, sector), ReclaimStepsFrom(f, sector + 1), c);
    CutShortAfter(start, a, done, b, ReclaimStepsFrom(f, sector), c);
  }

  lemma ProgressEnds(start: nat, f: Slots.Region, a: Trace, done: seq<Step>, b: Trace)
    requires Progress(start, f, a, done, Sectors(f), b)
    ensures PartlyReclaimed(f, Sectors(f)) == Reclaim(f) && SameActive(f, Reclaim(f))
    ensures IssuedSteps(start, a, ReclaimSteps(f), b)
  {
    NothingReclaimed(f);
    ReclaimStepsRun(f);
    assert done + [] == done;
    hide PartlyReclaimed, IssuedSteps, Reclaim, ReclaimSteps, ReclaimStepsFrom, DoAll;
  }

  function Larger(current: Option<u64>, candidate: u64): u64 {
    if current.Some? && current.value > candidate then current.value else candidate
  }

  /** What a scan of the first slots has to find. */
  datatype Tally = Tally(active: nat, corrupt: nat, largest: Option<u64>)

  ghost predicate Surveyed(f: Slots.Region, n: nat, t: Tally)
    requires n <= |f|
  {
    && t.active == ActiveBelow(f, n) && t.corrupt == |UndecodableSlots(f, n)|
    && match NewestBelow(f, n)
       case None => t.largest == None
       case Some(i) => t.largest == Some(f[i].Sequence())
  }

  lemma NothingSurveyed(f: Slots.Region)
    ensures Surveyed(f, 0, Tally(0, 0, None))
  {}

  lemma SurveyGoesOn(f: Slots.Region, n: nat, t: Tally, u: Tally)
    requires n < |f| && Surveyed(f, n, t)
    requires u == match f[n]
                  case Active(r) => t.(active := t.active + 1, largest := Some(Larger(t.largest, r.sequence)))
                  case Acknowledged(Some(r)) => t.(largest := Some(Larger(t.largest, r.sequence)))
                  case Acknowledged(None) => t.(corrupt := t.corrupt + 1)
                  case Corrupt => t.(corrupt := t.corrupt + 1)
                  case Erased => t
    ensures Surveyed(f, n + 1, u)
  {
    OneMoreUndecodable(f, n);
    hide UndecodableSlots;
  }

  class FlashQueue {
    const flash: Device
    const start: nat
    const length: nat
    var depth: nat
    var nextSequence: u64
    var dropped: u64

    ghost predicate Attached() {
      GoodGeometry(flash.cells.Length, start, length, flash.writeSize, flash.eraseSize)
    }

    function SlotCount(): nat {
      length / 256
    }

    ghost function Region(): (f: Slots.Region)
      requires Attached()
      reads flash.cells
      ensures |f| == SlotCount()
    {
      GeometryFits(flash.cells.Length, start, length, flash.writeSize, flash.eraseSize);
      View(flash.cells[..], start, SlotCount())
    }

    ghost predicate Valid()
      reads this, flash.cells
    {
      Attached() && depth == ActiveCount(Region())
    }

    ghost function Model(): (q: Queue)
      requires Attached()
      reads this, flash.cells
    {
      Queue(Region(), depth, nextSequence, dropped)
    }

    /** The address of a slot lies inside the device. */
    lemma SlotInside(slot: nat)
      requires Attached() && slot < SlotCount()
      ensures start + 256 * slot + 256 <= flash.cells.Length && Fits(flash.cells[..], start, SlotCount())
    {
      GeometryFits(flash.cells.Length, start, length, flash.writeSize, flash.eraseSize);
    }

    function CapacitySlots(): nat
      requires length >= ERASE_SIZE
    {
      SlotCount() - ERASE_SIZE / 256
    }

    constructor (flash: Device, start: nat, length: nat)
      ensures this.flash == flash && this.start == start && this.length == length
      ensures depth == 0 && nextSequence == 0 && dropped == 0
    {
      this.flash, this.start, this.length := flash, start, length;
      depth, nextSequence, dropped := 0, 0, 0;
    }

    // ----- reading

    method ReadSlot(slot: nat) returns (r: Result<Slot, QueueError>)
      requires Attached() && slot < SlotCount()
      modifies flash`faults
      ensures flash.faults == old(flash.faults) + Faulted(r)
      ensures r.Ok? ==> r.value == Region()[slot]
      ensures r.Err? ==> r.error == Storage
    {
      SlotInside(slot);
      var read := flash.Read(start + 256 * slot, 256);
      if read.Err? {
        return Err(read.error);
      }
      var bytes: RecordCodec.Image := read.value;
      assert bytes == Page(flash.cells[..], start, slot);
      if forall k :: 0 <= k < 256 ==> bytes[k] == RecordCodec.ERASED {
        return Ok(Erased);
      }
      if bytes[0] == RecordCodec.ACKNOWLEDGED {
        return Ok(Acknowledged(RecordCodec.Decode(bytes)));
      }
      if bytes[0] != RecordCodec.COMMITTED {
        return Ok(Corrupt);
      }
      match RecordCodec.Decode(bytes)
      case Some(record) => return Ok(Active(record));
      case None => return Ok(Corrupt);
    }

    method FindOldest() returns (r: Result<Option<(nat, Record)>, QueueError>)
      requires Attached()
      modifies flash`faults
      ensures flash.faults == old(flash.faults) + Faulted(r)
      ensures r.Err? ==> r.error == Storage
      ensures r.Ok? ==> match Oldest(Region())
                        case None => r.value == None
                        case Some(i) => r.value == Some((i, Region()[i].record))
    {
      hide View;
      var oldest: Option<(nat, Record)> := None;
      for slot := 0 to SlotCount()
        invariant flash.faults == old(flash.faults)
        invariant match OldestBelow(Region(), slot)
                  case None => oldest == None
                  case Some(i) => oldest == Some((i, Region()[i].record))
      {
        var read := ReadSlot(slot);
        if read.Err? {
          return Err(read.error);
        }
        if read.value.Active? {
          if oldest == None || read.value.record.sequence < oldest.value.1.sequence {
            oldest := Some((slot, read.value.record));
          }
        }
      }
      return Ok(oldest);
    }

    method FindErasedSlot() returns (r: Result<Option<nat>, QueueError>)
      requires Attached()
      modifies flash`faults
      ensures flash.faults == old(flash.faults) + Faulted(r)
      ensures r.Err? ==> r.error == Storage
      ensures r.Ok? ==> r.value == FirstErased(Region())
    {
      for slot := 0 to SlotCount()
        invariant flash.faults == old(flash.faults)
        invariant FirstErasedFrom(Region(), slot) == FirstErased(Region())
      {
        var read := ReadSlot(slot);
        if read.Err? {
          return Err(read.error);
        }
        if read.value.Erased? {
          return Ok(Some(slot));
        }
      }
      return Ok(None);
    }

    method PeekOldest() returns (r: Result<Option<Record>, QueueError>)
      requires Attached()
      modifies flash`faults
      ensures flash.faults == old(flash.faults) + Faulted(r)
      ensures r.Err? ==> r.error == Storage
      ensures r.Ok? ==> r.value == if Contents(Region()) == [] then None else Some(Contents(Region())[0])
    {
      var found := FindOldest();
      match found
      case Err(error) => return Err(error);
      case Ok(None) => return Ok(None);
      case Ok(Some((slot, record))) => return Ok(Some(record));
    }

    // ----- writing

    method WriteState(slot: nat, state: Byte) returns (r: Result<(), QueueError>)
      requires Attached() && slot < SlotCount()
      requires Legal(flash.cells[..], Program(start + 256 * slot, [state]))
      modifies flash, flash.cells
      ensures r.Ok? ==> flash.cells[..] == Apply(old(flash.cells[..]), Program(start + 256 * slot, [state]))
      ensures r.Ok? ==> Issued(old(flash.Now()), [Program(start + 256 * slot, [state])], flash.Now())
      ensures r.Err? ==> r.error == Storage && flash.cells[..] == old(flash.cells[..])
      ensures flash.faults == old(flash.faults) + Faulted(r)
    {
      hide Legal, Apply, ApplyAll, View;
      var ok := flash.Write(start + 256 * slot, [state]);
      r := if ok then Ok(()) else Err(Storage);
    }

    /** The body goes in with the state byte still erased; the commit byte follows. */
    method WriteRecord(slot: nat, record: Record) returns (r: Result<(), QueueError>)
      requires Attached() && slot < SlotCount() && Region()[slot].Erased?
      modifies flash, flash.cells
      ensures r.Ok? ==> Region() == Do(old(Region()), Put(slot, record))
      ensures r.Ok? ==> IssuedSteps(start, old(flash.Now()), [Put(slot, record)], flash.Now())
      ensures r.Err? ==> r.error == Storage
      ensures r.Err? ==> Region() == old(Region()) || Region() == old(Region())[slot := Corrupt]
      ensures r.Err? ==> CutShort(start, old(flash.Now()), [Put(slot, record)], flash.Now())
      ensures flash.faults == old(flash.faults) + Faulted(r)
    {
      hide ReadsAs, RecordCodec.Encode, Apply, ApplyAll, TornOp, Legal, View, Issued, IssuedSteps, CutShort;
      ghost var before, first := flash.cells[..], flash.Now();
      SlotInside(slot);
      var buffer := RecordCodec.Fill(record);
      buffer[0] := RecordCodec.ERASED;
      assert buffer[..] == Body(record);
      hide Body;
      BodyIsLegal(before, start, SlotCount(), slot, record);
      BodyWrites(before, start, SlotCount(), slot, record);
      PutWrites(before, start, SlotCount(), slot, record);
      var ok := flash.Write(start + 256 * slot, buffer[..]);
      if !ok {
        TornBodyView(before, start, SlotCount(), slot, record, flash.cells[..]);
        BodyCutShort(start, first, slot, record, flash.Now());
        return Err(Storage);
      }
      ghost var second := flash.Now();
      r := WriteState(slot, RecordCodec.COMMITTED);
      if r.Ok? {
        RecordIssued(start, first, slot, record, second, flash.Now());
        hide *;
      } else {
        CommitCutShort(start, first, slot, record, second, flash.Now());
      }
    }

    // ----- reclaiming

    method FindNewest() returns (r: Result<Option<nat>, QueueError>)
      requires Attached()
      modifies flash`faults
      ensures flash.faults == old(flash.faults) + Faulted(r)
      ensures r.Err? ==> r.error == Storage
      ensures r.Ok? ==> r.value == Newest(Region())
    {
      hide View;
      var newestSlot: Option<nat> := None;
      var newestSequence: Option<u64> := None;
      for slot := 0 to SlotCount()
        invariant flash.faults == old(flash.faults)
        invariant newestSlot == NewestBelow(Region(), slot)
        invariant newestSlot == None <==> newestSequence == None
        invariant newestSlot.Some? ==> newestSequence == Some(Region()[newestSlot.value].Sequence())
      {
        var read := ReadSlot(slot);
        if read.Err? {
          return Err(read.error);
        }
        if read.value.Decodable() {
          if newestSequence == None || read.value.Sequence() > newestSequence.value {
            newestSlot, newestSequence := Some(slot), Some(read.value.Sequence());
          }
        }
      }
      return Ok(newestSlot);
    }

    method InspectSector(sector: nat) returns (r: Result<(bool, bool), QueueError>)
      requires Attached() && 16 * sector + 16 <= SlotCount()
      modifies flash`faults
      ensures flash.faults == old(flash.faults) + Faulted(r)
      ensures r.Err? ==> r.error == Storage
      ensures r.Ok? ==> r.value == (HasActive(Region(), sector), Dirty(Region(), sector))
    {
      hide View;
      var active, dirty := false, false;
      var first := 16 * sector;
      for slot := first to first + 16
        invariant flash.faults == old(flash.faults)
        invariant active <==> exists i :: first <= i < slot && Region()[i].Active?
        invariant dirty <==> exists i :: first <= i < slot && (Region()[i].Acknowledged? || Region()[i].Corrupt?)
      {
        var read := ReadSlot(slot);
        if read.Err? {
          return Err(read.error);
        }
        match read.value
        case Active(_) => active := true;
        case Acknowledged(_) => dirty := true;
        case Corrupt => dirty := true;
        case Erased =>
      }
      return Ok((active, dirty));
    }

    method EraseOneSector(sector: nat) returns (r: Result<(), QueueError>)
      requires Attached() && 16 * sector + 16 <= SlotCount()
      modifies flash, flash.cells
      ensures r.Ok? ==> Region() == Do(old(Region()), Erase(sector))
      ensures r.Ok? ==> IssuedSteps(start, old(flash.Now()), [Erase(sector)], flash.Now())
      ensures r.Err? ==> r.error == Storage && Torn(old(Region()), Erase(sector), Region())
      ensures r.Err? ==> CutShort(start, old(flash.Now()), [Erase(sector)], flash.Now())
      ensures flash.faults == old(flash.faults) + Faulted(r)
    {
      hide ReadsAs, Apply, ApplyAll, TornOp, View, Torn, EraseSector, Legal, Issued, IssuedSteps, CutShort;
      ghost var before, first := flash.cells[..], flash.Now();
      var from := start + ERASE_SIZE * sector;
      SlotInside(16 * sector + 15);
      SectorIsLegal(before, start, SlotCount(), sector);
      var ok := flash.Erase(from, from + ERASE_SIZE);
      if ok {
        ErasesOneSector(before, start, SlotCount(), sector);
        IssuedStep(start, first, Erase(sector), flash.Now());
        return Ok(());
      } else {
        TearsOneSector(before, start, SlotCount(), sector, flash.cells[..]);
        EraseCutShort(start, first, sector, flash.Now());
        return Err(Storage);
      }
    }

    /** Erases the sector if nothing in it is needed. */
    method ReclaimSector(ghost f: Slots.Region, sector: nat, newestSlot: Option<nat>) returns (r: Result<(), QueueError>)
      requires Attached() && |f| == SlotCount() && 16 * sector + 16 <= SlotCount()
      requires Region() == PartlyReclaimed(f, sector) && newestSlot == Newest(f)
      modifies flash, flash.cells
      ensures r.Ok? ==> Region() == PartlyReclaimed(f, sector + 1)
      ensures r.Ok? ==> IssuedSteps(start, old(flash.Now()), ReclaimStep(f, sector), flash.Now())
      ensures r.Err? ==> r.error == Storage
      ensures r.Err? ==> Region() == old(Region())
                         || (Reclaimable(f, sector) && Torn(old(Region()), Erase(sector), Region()))
      ensures r.Err? ==> CutShort(start, old(flash.Now()), ReclaimStep(f, sector), flash.Now())
      ensures flash.faults == old(flash.faults) + Faulted(r)
    {
      hide View, Reclaimable, HasActive, Dirty, EraseSector, PartlyReclaimed, Torn, IssuedSteps, CutShort;
      SectorUntouched(f, sector);
      ReclaimableIs(f, sector);
      IssuedNoSteps(start, flash.Now());
      var seen := InspectSector(sector);
      if seen.Err? {
        CutShortNone(start, old(flash.Now()), ReclaimStep(f, sector), flash.Now());
        return Err(seen.error);
      }
      var (active, dirty) := seen.value;
      var first := 16 * sector;
      var preservesNewest := newestSlot.Some? && first <= newestSlot.value < first + 16;
      if !active && dirty && !preservesNewest {
        EraseNext(f, sector);
        r := EraseOneSector(sector);
      } else {
        SkipNext(f, sector);
        r := Ok(());
      }
    }

    method ReclaimInactiveSectors() returns (r: Result<(), QueueError>)
      requires Attached()
      modifies flash, flash.cells
      ensures r.Ok? ==> Region() == Reclaim(old(Region()))
      ensures r.Ok? ==> IssuedSteps(start, old(flash.Now()), ReclaimSteps(old(Region())), flash.Now())
      ensures r.Err? ==> r.error == Storage && Cut(old(Region()), ReclaimSteps(old(Region())), Region())
      ensures r.Err? ==> CutShort(start, old(flash.Now()), ReclaimSteps(old(Region())), flash.Now())
      ensures SameActive(old(Region()), Region())
      ensures flash.faults == old(flash.faults) + Faulted(r)
    {
      hide View, Reclaimable, PartlyReclaimed, Reclaim, Torn, Cut, SameActive, ReclaimSteps;
      hide IssuedSteps, CutShort, ReclaimStep, Progress;
      ghost var f, first := Region(), flash.Now();
      GeometryFits(flash.cells.Length, start, length, flash.writeSize, flash.eraseSize);
      ghost var done := ProgressStarts(start, f, first);
      var newestSlot := FindNewest();
      if newestSlot.Err? {
        CutOfNone(f);
        ReclaimCutKeepsActive(f, f);
        CutShortNone(start, first, ReclaimSteps(f), flash.Now());
        return Err(newestSlot.error);
      }
      for sector := 0 to length / ERASE_SIZE
        invariant flash.faults == old(flash.faults)
        invariant Region() == PartlyReclaimed(f, sector)
        invariant Progress(start, f, first, done, sector, flash.Now())
      {
        ghost var now := flash.Now();
        var visited := ReclaimSector(f, sector, newestSlot.value);
        if visited.Err? {
          ProgressCut(start, f, first, done, sector, now, Region(), flash.Now());
          return Err(visited.error);
        }
        done := ProgressGoesOn(start, f, first, done, sector, now, flash.Now());
      }
      ProgressEnds(start, f, first, done, flash.Now());
      r := Ok(());
    }

    // ----- the operations

    /** Under the invariant this is dequeue. */
    method AcknowledgeOldest() returns (r: Result<Option<Record>, QueueError>)
      requires Valid()
      modifies this, flash, flash.cells
      ensures Valid() && nextSequence == old(nextSequence) && dropped == old(dropped)
      ensures r.Ok? ==> (Model(), r.value) == Acknowledge(old(Model()))
      ensures r.Ok? ==> IssuedSteps(start, old(flash.Now()), AcknowledgeSteps(old(Region())), flash.Now())
      ensures r.Err? ==> r.error == Storage && Cut(old(Region()), AcknowledgeSteps(old(Region())), Region())
      ensures r.Err? ==> CutShort(start, old(flash.Now()), AcknowledgeSteps(old(Region())), flash.Now())
      ensures flash.faults == old(flash.faults) + Faulted(r)
      ensures flash.faults == old(flash.faults) ==> (Model(), r) == (Acknowledge(old(Model())).0, Ok(Acknowledge(old(Model())).1))
      ensures old(Good(Model())) ==> Good(Model())
      ensures old(Good(Model())) && r.Ok? ==>
                match r.value
                case None => old(Contents(Region())) == Contents(Region()) == []
                case Some(record) => old(Contents(Region())) == [record] + Contents(Region())
    {
      hide View, Legal, Apply, Good, Cut, Contents, ReclaimSteps, Reclaim, SameActive, ActiveCount;
      hide Issued, IssuedSteps, CutShort;
      ghost var q, f, first := Model(), Region(), flash.Now();
      CutOfAcknowledge(q);
      IssuedNoSteps(start, first);
      var found := FindOldest();
      if found.Err? {
        CutShortNone(start, first, AcknowledgeSteps(f), flash.Now());
        return Err(found.error);
      }
      if found.value == None {
        return Ok(None);
      }
      var (slot, record) := found.value.value;
      ghost var g := RetireAt(f, slot);
      SlotInside(slot);
      RetireIsLegal(flash.cells[..], start, SlotCount(), slot);
      RetireWrites(flash.cells[..], start, SlotCount(), slot);
      var written := WriteState(slot, RecordCodec.ACKNOWLEDGED);
      if written.Err? {
        CutShortNone(start, first, AcknowledgeSteps(f), flash.Now());
        return Err(written.error);
      }
      ghost var second := flash.Now();
      IssuedStep(start, first, Retire(slot), second);
      depth := depth - 1;
      var reclaimed := ReclaimInactiveSectors();
      SameActiveCounts(g, Region());
      if reclaimed.Err? {
        RetireCutRest(q, slot, Region());
        CutShortAfter(start, first, [Retire(slot)], second, ReclaimSteps(g), flash.Now());
        return Err(reclaimed.error);
      }
      IssuedStepsThen(start, first, [Retire(slot)], second, ReclaimSteps(g), flash.Now());
      return Ok(Some(record));
    }

    method RemoveOldest() returns (r: Result<(), QueueError>)
      requires Valid()
      modifies this, flash, flash.cells
      ensures Valid() && nextSequence == old(nextSequence) && dropped == old(dropped)
      ensures r.Ok? ==> Model() == Acknowledge(old(Model())).0
      ensures r.Ok? ==> IssuedSteps(start, old(flash.Now()), AcknowledgeSteps(old(Region())), flash.Now())
      ensures r.Err? ==> r.error == Storage && Cut(old(Region()), AcknowledgeSteps(old(Region())), Region())
      ensures r.Err? ==> CutShort(start, old(flash.Now()), AcknowledgeSteps(old(Region())), flash.Now())
      ensures flash.faults == old(flash.faults) + Faulted(r)
      ensures old(Good(Model())) ==> Good(Model())
    {
      hide View, Cut, Good, Contents, IssuedSteps, CutShort;
      var acknowledged := AcknowledgeOldest();
      r := if acknowledged.Ok? then Ok(()) else Err(acknowledged.error);
    }

    /** The record goes into the lowest erased slot. */
    method Place(record: Record) returns (r: Result<(), QueueError>)
      requires Valid()
      modifies this`depth, flash, flash.cells
      ensures Valid()
      ensures r.Ok? ==> FirstErased(old(Region())).Some?
                        && Region() == Reclaim(Do(old(Region()), Put(FirstErased(old(Region())).value, record)))
                        && depth == old(depth) + 1
      ensures r == Err(InvalidGeometry) ==> FirstErased(old(Region())) == None && Region() == old(Region())
      ensures r != Err(Storage) ==> IssuedSteps(start, old(flash.Now()), PutSteps(old(Region()), record), flash.Now())
      ensures r == Err(Storage) ==> Cut(old(Region()), PutSteps(old(Region()), record), Region())
      ensures r == Err(Storage) ==> CutShort(start, old(flash.Now()), PutSteps(old(Region()), record), flash.Now())
      ensures flash.faults == old(flash.faults) + Faulted(r)
    {
      hide View, Cut, ReclaimSteps, Reclaim, SameActive, ActiveCount, IssuedSteps, CutShort;
      ghost var f, first := Region(), flash.Now();
      CutOfPut(f, record);
      IssuedNoSteps(start, first);
      var slot := FindErasedSlot();
      if slot.Err? {
        CutShortNone(start, first, PutSteps(f, record), flash.Now());
        return Err(Storage);
      }
      if slot.value == None {
        return Err(InvalidGeometry);
      }
      ghost var g := Do(f, Put(slot.value.value, record));
      var written := WriteRecord(slot.value.value, record);
      if written.Err? {
        CutShortBefore(start, first, [Put(slot.value.value, record)], ReclaimSteps(g), flash.Now());
        return Err(Storage);
      }
      ghost var second := flash.Now();
      depth := depth + 1;
      var reclaimed := ReclaimInactiveSectors();
      SameActiveCounts(g, Region());
      if reclaimed.Err? {
        PutCutRest(f, record, Region());
        CutShortAfter(start, first, [Put(slot.value.value, record)], second, ReclaimSteps(g), flash.Now());
        return Err(Storage);
      }
      IssuedStepsThen(start, first, [Put(slot.value.value, record)], second, ReclaimSteps(g), flash.Now());
      return Ok(());
    }

    /** A full queue drops its oldest record. */
    method MakeRoom() returns (r: Result<(), QueueError>)
      requires Valid()
      modifies this, flash, flash.cells
      ensures Valid() && nextSequence == old(nextSequence)
      ensures r.Ok? ==> Model() == Evict(old(Model()))
      ensures r.Ok? ==> IssuedSteps(start, old(flash.Now()), EvictSteps(old(Model())), flash.Now())
      ensures r.Err? ==> r.error == Storage && old(depth) == CapacitySlots() && dropped == old(dropped)
      ensures r.Err? ==> Cut(old(Region()), AcknowledgeSteps(old(Region())), Region())
      ensures r.Err? ==> CutShort(start, old(flash.Now()), AcknowledgeSteps(old(Region())), flash.Now())
      ensures flash.faults == old(flash.faults) + Faulted(r)
      ensures old(Good(Model())) ==> Good(Model())
    {
      hide View, Cut, Good, Contents, Evict, EvictSteps, IssuedSteps, CutShort, Acknowledge, AcknowledgeSteps, ActiveCount;
      EvictIs(Model());
      IssuedNoSteps(start, flash.Now());
      if depth != CapacitySlots() {
        return Ok(());
      }
      r := RemoveOldest();
      if r.Ok? {
        dropped := SaturatingIncrement(dropped);
        CountersDoNotMatter(Model(), old(dropped));
      }
    }

    /** Under the invariant this is enqueue, after dropping the oldest record of a full queue. */
    method Append(m: Measurement) returns (r: Result<Record, QueueError>)
      requires Valid()
      modifies this, flash, flash.cells
      ensures Valid()
      ensures r != Err(Storage) ==> (Model(), r) == QueueModel.Append(old(Model()), m)
      ensures r != Err(Storage) ==> IssuedSteps(start, old(flash.Now()), AppendSteps(old(Model()), m), flash.Now())
      ensures r == Err(Storage) ==> Cut(old(Region()), AppendSteps(old(Model()), m), Region())
      ensures r == Err(Storage) ==> CutShort(start, old(flash.Now()), AppendSteps(old(Model()), m), flash.Now())
      ensures r == Err(Storage) ==> AppendFailed(old(Model()), m, Model())
      ensures flash.faults == old(flash.faults) + Faulted(r)
      ensures flash.faults == old(flash.faults) ==> (Model(), r) == QueueModel.Append(old(Model()), m)
      ensures old(Good(Model())) && old(nextSequence) + 1 < TWO_TO_THE_64 ==> Good(Model())
      ensures old(Good(Model())) && old(nextSequence) + 1 < TWO_TO_THE_64 && r.Ok? ==>
                r.value == Record(old(nextSequence), m)
                && Contents(Region()) == Remaining(old(Model())) + [StoredRecord(r.value)]
    {
      hide View, Cut, Good, Contents, AppendSteps, QueueModel.Append, Evict, EvictSteps, PutSteps, IssuedSteps, CutShort;
      hide Acknowledge, AcknowledgeSteps, Reclaim, Do, FirstErased, ActiveCount, Remaining, AppendFailed;
      ghost var q, first := Model(), flash.Now();
      AppendPlan(q, m);
      if Good(q) && q.next + 1 < TWO_TO_THE_64 {
        AppendMeaning(q, m);
      }
      var room := MakeRoom();
      if room.Err? {
        EvictIs(q);
        EvictCut(q, m, Region());
        FailedEvicting(q, m, Model());
        CutShortBefore(start, first, EvictSteps(q), PutSteps(Evict(q).slots, Record(q.next, m)), flash.Now());
        return Err(Storage);
      }
      ghost var e, second := Model(), flash.Now();
      var record := Record(nextSequence, m);
      nextSequence := WrappingIncrement(nextSequence);
      var placed := Place(record);
      match placed
      case Ok(_) =>
        IssuedStepsThen(start, first, EvictSteps(q), second, PutSteps(e.slots, record), flash.Now());
        r := Ok(record);
      case Err(InvalidGeometry) =>
        IssuedStepsThen(start, first, EvictSteps(q), second, PutSteps(e.slots, record), flash.Now());
        r := Err(InvalidGeometry);
      case Err(Storage) =>
        PlaceCut(q, m, Region());
        FailedPlacing(q, m, Model());
        CutShortAfter(start, first, EvictSteps(q), second, PutSteps(e.slots, record), flash.Now());
        r := Err(Storage);
    }

    // ----- recovery

    /** The first scan: counts and the largest decodable sequence. */
    method Survey() returns (r: Result<Tally, QueueError>)
      requires Attached()
      modifies flash`faults
      ensures flash.faults == old(flash.faults) + Faulted(r)
      ensures r.Err? ==> r.error == Storage
      ensures r.Ok? ==> Surveyed(Region(), SlotCount(), r.value)
    {
      hide View, Surveyed;
      var active, corrupt := 0, 0;
      var maxSequence: Option<u64> := None;
      NothingSurveyed(Region());
      for slot := 0 to SlotCount()
        invariant flash.faults == old(flash.faults)
        invariant Surveyed(Region(), slot, Tally(active, corrupt, maxSequence))
      {
        ghost var before := Tally(active, corrupt, maxSequence);
        var read := ReadSlot(slot);
        if read.Err? {
          return Err(read.error);
        }
        match read.value {
          case Active(record) =>
            active := active + 1;
            maxSequence := Some(Larger(maxSequence, record.sequence));
          case Acknowledged(Some(record)) =>
            maxSequence := Some(Larger(maxSequence, record.sequence));
          case Acknowledged(None) => corrupt := corrupt + 1;
          case Corrupt => corrupt := corrupt + 1;
          case Erased =>
        }
        SurveyGoesOn(Region(), slot, before, Tally(active, corrupt, maxSequence));
      }
      return Ok(Tally(active, corrupt, maxSequence));
    }

    /** Rebuilds the queue from flash alone, and finishes any reclaiming that was cut short. */
    static method Recover(flash: Device, start: nat, length: nat)
      returns (r: Result<(FlashQueue, RecoveryReport), QueueError>)
      modifies flash, flash.cells
      ensures r == Err(InvalidGeometry) <==>
              !GoodGeometry(flash.cells.Length, start, length, flash.writeSize, flash.eraseSize)
      ensures r == Err(InvalidGeometry) ==> flash.cells[..] == old(flash.cells[..]) && flash.log == old(flash.log)
      ensures r.Ok? ==>
                var (queue, report) := r.value;
                var before := old(View(flash.cells[..], start, length / 256));
                && fresh(queue) && queue.flash == flash && queue.start == start && queue.length == length
                && queue.Valid() && queue.Model() == QueueModel.Recover(before)
                && report.depth == queue.depth == |set i: nat | i < |before| && before[i].Active?|
                && report.corruptRecords == |set i: nat | i < |before| && before[i] in {Corrupt, Acknowledged(None)}|
                && report.nextSequence == queue.nextSequence
                && IssuedSteps(start, old(flash.Now()), ReclaimSteps(before), flash.Now())
      ensures r == Err(Storage) ==>
                var before := old(View(flash.cells[..], start, length / 256));
                && Cut(before, ReclaimSteps(before), View(flash.cells[..], start, length / 256))
                && CutShort(start, old(flash.Now()), ReclaimSteps(before), flash.Now())
      ensures flash.faults == old(flash.faults) + Faulted(r)
      ensures flash.faults == old(flash.faults) ==>
                (r.Ok? <==> GoodGeometry(flash.cells.Length, start, length, flash.writeSize, flash.eraseSize))
    {
      hide View, Cut, ReclaimSteps, Reclaim, SameActive, IssuedSteps, CutShort;
      if !GoodGeometry(flash.cells.Length, start, length, flash.writeSize, flash.eraseSize) {
        return Err(InvalidGeometry);
      }
      var queue := new FlashQueue(flash, start, length);
      ghost var before := queue.Region();
      CutOfNone(before);
      ActiveIsCardinality(before, |before|);
      assert ActiveSlots(before, |before|) == set i: nat | i < |before| && before[i].Active?;
      assert UndecodableSlots(before, |before|) == set i: nat | i < |before| && before[i] in {Corrupt, Acknowledged(None)};
      hide ActiveSlots, UndecodableSlots, ActiveBelow;
      var survey := queue.Survey();
      if survey.Err? {
        CutShortNone(start, old(flash.Now()), ReclaimSteps(before), flash.Now());
        return Err(Storage);
      }
      var Tally(active, corrupt, maxSequence) := survey.value;
      queue.depth := active;
      queue.nextSequence := if maxSequence == None then 0 else WrappingIncrement(maxSequence.value);
      var reclaimed := queue.ReclaimInactiveSectors();
      SameActiveCounts(before, queue.Region());
      if reclaimed.Err? {
        return Err(Storage);
      }
      return Ok((queue, RecoveryReport(queue.depth, corrupt, queue.nextSequence)));
    }
  }
}
