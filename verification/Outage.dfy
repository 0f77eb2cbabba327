/** An outage: appends and no acknowledgments, for as long as it lasts. The region is then a ring
    of all its slots but the last, and nothing is refused. */
module Outage {
  import opened Types
  import opened Slots
  import opened Fifo
  import opened QueueModel
  import opened CrashSafety
  import opened Wear
  import opened Multiplication

  /** The last slot of the sector that the ring ever uses. */
  function LastOf(sectors: nat, j: nat): nat
    requires sectors >= 2
  {
    var last := 16 * (j / 16) + 15;
    if last >= 16 * sectors - 1 then 16 * sectors - 2 else last
  }

  /** The number of the record that slot `j` was last given, when `k` have been appended and the
      next goes to slot `head`; negative before the first lap gets there. */
  function Holds(sectors: nat, k: nat, head: nat, j: nat): int {
    if j < head then k - head + j else k - head - (16 * sectors - 1) + j
  }

  /** A slot of the ring when every record below `oldest` has been retired. */
  function RingSlot(sectors: nat, k: nat, head: nat, oldest: nat, readings: nat -> Measurement, j: nat): Slot
    requires sectors >= 2 && k < TWO_TO_THE_64 && head <= k && head < 16 * sectors - 1
  {
    var i := Holds(sectors, k, head, j);
    if j >= 16 * sectors - 1 || i < 0 then Erased
    else if i >= oldest then Active(StoredRecord(Record(i, readings(i))))
    else if i + LastOf(sectors, j) - j >= oldest then Acknowledged(Some(StoredRecord(Record(i, readings(i)))))
    else Erased
  }

  function Ring(sectors: nat, k: nat, head: nat, oldest: nat, readings: nat -> Measurement): (f: Region)
    requires sectors >= 2 && k < TWO_TO_THE_64 && head <= k && head < 16 * sectors - 1
    ensures |f| == 16 * sectors
  {
    seq(16 * sectors, j requires 0 <= j < 16 * sectors => RingSlot(sectors, k, head, oldest, readings, j))
  }

  function NextHead(sectors: nat, head: nat): nat {
    if head + 2 == 16 * sectors then 0 else head + 1
  }

  // ----- the next slot

  ghost predicate RingFits(sectors: nat, k: nat, head: nat, oldest: nat) {
    && sectors >= 2 && k + 1 < TWO_TO_THE_64 && head <= k && head < 16 * sectors - 1
    && ((oldest == 0 && k == head && k < 16 * sectors - 16) || k == oldest + 16 * sectors - 17)
  }

  lemma RingHead(sectors: nat, k: nat, head: nat, oldest: nat, readings: nat -> Measurement)
    requires RingFits(sectors, k, head, oldest)
    ensures FirstErased(Ring(sectors, k, head, oldest, readings)) == Some(head)
  {
    var f := Ring(sectors, k, head, oldest, readings);
    assert f[head].Erased?;
    forall j | 0 <= j < head ensures !f[j].Erased? {
      assert LastOf(sectors, j) >= 15;
    }
  }

  lemma RingPut(sectors: nat, k: nat, head: nat, oldest: nat, readings: nat -> Measurement)
    requires RingFits(sectors, k, head, oldest)
    ensures Ring(sectors, k, head, oldest, readings)[head := Active(StoredRecord(Record(k, readings(k))))]
            == Ring(sectors, k + 1, NextHead(sectors, head), oldest, readings)
  {
    var f := Ring(sectors, k, head, oldest, readings);
    var g := Ring(sectors, k + 1, NextHead(sectors, head), oldest, readings);
    forall j | 0 <= j < 16 * sectors && j != head ensures f[j] == g[j] {
      assert j < 16 * sectors - 1 ==> Holds(sectors, k, head, j) == Holds(sectors, k + 1, NextHead(sectors, head), j);
    }
  }

  // ----- the oldest record

  function OldestSlot(sectors: nat, head: nat): nat
    requires sectors >= 2
  {
    if head >= 16 * sectors - 16 then head - (16 * sectors - 16) else head + 15
  }

  /** A full ring. */
  ghost predicate RingFull(sectors: nat, k: nat, head: nat, oldest: nat) {
    && sectors >= 2 && k < TWO_TO_THE_64 && head <= k && head < 16 * sectors - 1
    && k == oldest + 16 * sectors - 16
  }

  lemma RingOldest(sectors: nat, k: nat, head: nat, oldest: nat, readings: nat -> Measurement)
    requires RingFull(sectors, k, head, oldest)
    ensures Oldest(Ring(sectors, k, head, oldest, readings)) == Some(OldestSlot(sectors, head))
    ensures Holds(sectors, k, head, OldestSlot(sectors, head)) == oldest && OldestSlot(sectors, head) < 16 * sectors - 1
  {
    OldestIs(Ring(sectors, k, head, oldest, readings), OldestSlot(sectors, head));
  }

  function NewestSlot(sectors: nat, head: nat): nat
    requires sectors >= 2
  {
    if head == 0 then 16 * sectors - 2 else head - 1
  }

  lemma RetiredRing(sectors: nat, k: nat, head: nat, oldest: nat, readings: nat -> Measurement)
    requires RingFull(sectors, k, head, oldest)
    ensures var f := Ring(sectors, k, head, oldest, readings); var o := OldestSlot(sectors, head);
            Oldest(f) == Some(o) && Newest(RetireAt(f, o)) == Some(NewestSlot(sectors, head))
  {
    var f := Ring(sectors, k, head, oldest, readings);
    RingOldest(sectors, k, head, oldest, readings);
    NewestIs(RetireAt(f, OldestSlot(sectors, head)), NewestSlot(sectors, head));
  }

  /** After the oldest record is retired, its sector can be erased exactly when it was the last
      record the ring put there; no other sector can. */
  lemma RingReclaimable(sectors: nat, k: nat, head: nat, oldest: nat, readings: nat -> Measurement, s: nat)
    requires RingFull(sectors, k, head, oldest) && s < sectors
    ensures var f := Ring(sectors, k, head, oldest, readings); var o := OldestSlot(sectors, head);
            Oldest(f) == Some(o) && (Reclaimable(RetireAt(f, o), s) <==> s == o / 16 && o == LastOf(sectors, o))
  {
    var f, o := Ring(sectors, k, head, oldest, readings), OldestSlot(sectors, head);
    RetiredRing(sectors, k, head, oldest, readings);
    RingOldest(sectors, k, head, oldest, readings);
    if s == o / 16 && o == LastOf(sectors, o) {
      LastOfSector(sectors, k, head, oldest, readings);
    } else {
      NotLastOfSector(sectors, k, head, oldest, readings, s);
    }
  }

  lemma LastOfSector(sectors: nat, k: nat, head: nat, oldest: nat, readings: nat -> Measurement)
    requires RingFull(sectors, k, head, oldest)
    requires OldestSlot(sectors, head) == LastOf(sectors, OldestSlot(sectors, head))
    ensures var f := Ring(sectors, k, head, oldest, readings); var o := OldestSlot(sectors, head);
            Oldest(f) == Some(o) && Reclaimable(RetireAt(f, o), o / 16)
  {
    var f, o := Ring(sectors, k, head, oldest, readings), OldestSlot(sectors, head);
    RetiredRing(sectors, k, head, oldest, readings);
    var g, s := RetireAt(f, o), o / 16;
    assert g[o].Acknowledged?;
    forall j | 16 * s <= j < 16 * s + 16 && j < |g| ensures !g[j].Active? {}
    assert !HasActive(g, s);
    var n := NewestSlot(sectors, head);
    assert g[n].Active?;
  }

  /** A slot of the ring whose record is retired but whose sector is not finished has a later
      record of the same sector still waiting. */
  function Later(sectors: nat, head: nat, j: nat): nat
    requires sectors >= 2
  {
    if j < head <= LastOf(sectors, j) then head - 1 else LastOf(sectors, j)
  }

  lemma LaterWaits(sectors: nat, k: nat, head: nat, oldest: nat, readings: nat -> Measurement, j: nat)
    requires RingFull(sectors, k, head, oldest) && j < 16 * sectors - 1
    requires 0 <= Holds(sectors, k, head, j) <= oldest <= Holds(sectors, k, head, j) + LastOf(sectors, j) - j
    ensures var l := Later(sectors, head, j);
            l / 16 == j / 16 && l < 16 * sectors - 1 && Holds(sectors, k, head, l) >= oldest
            && (Holds(sectors, k, head, l) == oldest ==> l == OldestSlot(sectors, head) == LastOf(sectors, l))
  {}

  /** Whatever is retired and not the last of its sector has a later record there. */
  lemma SectorStillNeeded(sectors: nat, k: nat, head: nat, oldest: nat, readings: nat -> Measurement, j: nat)
    requires RingFull(sectors, k, head, oldest) && j < 16 * sectors
    requires var o := OldestSlot(sectors, head); j / 16 != o / 16 || o != LastOf(sectors, o)
    ensures var f := Ring(sectors, k, head, oldest, readings); var o := OldestSlot(sectors, head);
            Oldest(f) == Some(o) && var g := RetireAt(f, o);
            (g[j].Acknowledged? || g[j].Corrupt?) ==>
              var l := Later(sectors, head, j); l / 16 == j / 16 && l < |g| && g[l].Active?
  {
    var f, o := Ring(sectors, k, head, oldest, readings), OldestSlot(sectors, head);
    RingOldest(sectors, k, head, oldest, readings);
    var g := RetireAt(f, o);
    if g[j].Acknowledged? || g[j].Corrupt? {
      LaterWaits(sectors, k, head, oldest, readings, j);
      hide Later, OldestSlot;
    }
  }

  lemma NotLastOfSector(sectors: nat, k: nat, head: nat, oldest: nat, readings: nat -> Measurement, s: nat)
    requires RingFull(sectors, k, head, oldest) && s < sectors
    requires var o := OldestSlot(sectors, head); s != o / 16 || o != LastOf(sectors, o)
    ensures var f := Ring(sectors, k, head, oldest, readings); var o := OldestSlot(sectors, head);
            Oldest(f) == Some(o) && !Reclaimable(RetireAt(f, o), s)
  {
    hide Ring, OldestSlot, LastOf, Later, Holds, OldestBelow;
    RingOldest(sectors, k, head, oldest, readings);
    var g := RetireAt(Ring(sectors, k, head, oldest, readings), OldestSlot(sectors, head));
    if Dirty(g, s) {
      var j :| 16 * s <= j < 16 * s + 16 && j < |g| && (g[j].Acknowledged? || g[j].Corrupt?);
      assert j / 16 == s;
      SectorStillNeeded(sectors, k, head, oldest, readings, j);
    }
  }

  lemma RingEvicts(sectors: nat, k: nat, head: nat, oldest: nat, readings: nat -> Measurement)
    requires RingFull(sectors, k, head, oldest)
    ensures var f := Ring(sectors, k, head, oldest, readings); var o := OldestSlot(sectors, head);
            Oldest(f) == Some(o) && Reclaim(RetireAt(f, o)) == Ring(sectors, k, head, oldest + 1, readings)
  {
    var f, o := Ring(sectors, k, head, oldest, readings), OldestSlot(sectors, head);
    RingOldest(sectors, k, head, oldest, readings);
    var g, h := RetireAt(f, o), Ring(sectors, k, head, oldest + 1, readings);
    forall j | 0 <= j < 16 * sectors ensures Reclaim(g)[j] == h[j] {
      RingReclaimable(sectors, k, head, oldest, readings, j / 16);
      hide Reclaimable;
    }
  }

  lemma RingSettled(sectors: nat, k: nat, head: nat, oldest: nat, readings: nat -> Measurement)
    requires sectors >= 2 && 0 < k < TWO_TO_THE_64 && head <= k && head < 16 * sectors - 1
    requires (oldest == 0 && k == head && k <= 16 * sectors - 16) || k == oldest + 16 * sectors - 16
    ensures Reclaimed(Ring(sectors, k, head, oldest, readings))
  {
    var f := Ring(sectors, k, head, oldest, readings);
    forall s | 0 <= s < sectors ensures SectorErased(f, s) || HasActive(f, s) {
      hide Ring;
      if !SectorErased(f, s) {
        var j :| 16 * s <= j < 16 * s + 16 && j < |f| && !f[j].Erased?;
        UsedSectorWaits(sectors, k, head, oldest, readings, j);
        SectorBounds(j, s);
      }
    }
    hide Ring, SectorErased, HasActive, HoldsNewest;
  }

  lemma UsedSectorWaits(sectors: nat, k: nat, head: nat, oldest: nat, readings: nat -> Measurement, j: nat)
    requires sectors >= 2 && 0 < k < TWO_TO_THE_64 && head <= k && head < 16 * sectors - 1
    requires (oldest == 0 && k == head && k <= 16 * sectors - 16) || k == oldest + 16 * sectors - 16
    requires j < 16 * sectors && !Ring(sectors, k, head, oldest, readings)[j].Erased?
    ensures HasActive(Ring(sectors, k, head, oldest, readings), j / 16)
  {
    var f := Ring(sectors, k, head, oldest, readings);
    if f[j].Active? {
      assert 16 * (j / 16) <= j < 16 * (j / 16) + 16;
    } else {
      LaterWaits(sectors, k, head, oldest, readings, j);
      var l := Later(sectors, head, j);
      assert 16 * (l / 16) <= l < 16 * (l / 16) + 16;
      assert f[l].Active?;
    }
  }

  // ----- the run

  function HeadAfter(sectors: nat, k: nat): (head: nat)
    requires sectors >= 2
    ensures head <= k && head < 16 * sectors - 1
  {
    if k == 0 then 0 else NextHead(sectors, HeadAfter(sectors, k - 1))
  }

  function OldestAfter(sectors: nat, k: nat): nat {
    if k + 16 <= 16 * sectors then 0 else k + 16 - 16 * sectors
  }

  /** `k` appends from a blank region. */
  ghost function Outage(sectors: nat, readings: nat -> Measurement, k: nat): (q: Queue)
    requires sectors >= 2
    ensures Consistent(q)
  {
    if k == 0 then
      SameActiveCounts(Blank(sectors), Reclaim(Blank(sectors)));
      Recover(Blank(sectors))
    else
      AppendRuns(Outage(sectors, readings, k - 1), readings(k - 1));
      Append(Outage(sectors, readings, k - 1), readings(k - 1)).0
  }

  ghost function RingQueue(sectors: nat, readings: nat -> Measurement, k: nat): Queue
    requires sectors >= 2 && k < TWO_TO_THE_64
  {
    var oldest := OldestAfter(sectors, k);
    Queue(Ring(sectors, k, HeadAfter(sectors, k), oldest, readings), k - oldest, k, oldest)
  }

  lemma FirstLap(sectors: nat, k: nat)
    requires sectors >= 2 && k < 16 * sectors - 1
    ensures HeadAfter(sectors, k) == k
  {}

  lemma RingBlank(sectors: nat, readings: nat -> Measurement)
    requires sectors >= 2
    ensures Outage(sectors, readings, 0) == RingQueue(sectors, readings, 0)
  {
    BlankIsGood(sectors);
    assert Ring(sectors, 0, 0, 0, readings) == Blank(sectors);
    assert ActiveCount(Blank(sectors)) == 0;
  }

  lemma RingAppend(sectors: nat, readings: nat -> Measurement, k: nat)
    requires sectors >= 2 && k + 1 < TWO_TO_THE_64 && Consistent(RingQueue(sectors, readings, k))
    ensures Append(RingQueue(sectors, readings, k), readings(k))
            == (RingQueue(sectors, readings, k + 1), Ok(Record(k, readings(k))))
  {
    hide Ring, Reclaim, Consistent, Reclaimed, FirstErased, Oldest, HeadAfter;
    var q, head, oldest := RingQueue(sectors, readings, k), HeadAfter(sectors, k), OldestAfter(sectors, k);
    var kept := OldestAfter(sectors, k + 1);
    NextHeadAfter(sectors, k);
    AppendPlan(q, readings(k));
    EvictIs(q);
    if k < 16 * sectors - 16 {
      FirstLap(sectors, k);
    } else {
      RingEvicts(sectors, k, head, oldest, readings);
    }
    assert Evict(q) == Queue(Ring(sectors, k, head, kept, readings), k - kept, k, kept);
    RingHead(sectors, k, head, kept, readings);
    RingPut(sectors, k, head, kept, readings);
    if k + 1 <= 16 * sectors - 16 {
      FirstLap(sectors, k + 1);
    }
    RingSettled(sectors, k + 1, NextHead(sectors, head), kept, readings);
    ReclaimedIsFixed(Ring(sectors, k + 1, NextHead(sectors, head), kept, readings));
  }

  lemma NextHeadAfter(sectors: nat, k: nat)
    requires sectors >= 2
    ensures HeadAfter(sectors, k + 1) == NextHead(sectors, HeadAfter(sectors, k))
  {}

  lemma {:induction false} OutageIsRing(sectors: nat, readings: nat -> Measurement, k: nat)
    requires sectors >= 2 && k < TWO_TO_THE_64
    ensures Outage(sectors, readings, k) == RingQueue(sectors, readings, k)
  {
    hide RingQueue, Append, Consistent;
    if k == 0 {
      RingBlank(sectors, readings);
    } else {
      OutageIsRing(sectors, readings, k - 1);
      RingAppend(sectors, readings, k - 1);
    }
  }

  lemma {:induction false} HeadIsRemainder(sectors: nat, k: nat) returns (laps: nat)
    requires sectors >= 2
    ensures k == laps * (16 * sectors - 1) + HeadAfter(sectors, k)
  {
    if k == 0 {
      laps := 0;
    } else {
      laps := HeadIsRemainder(sectors, k - 1);
      if HeadAfter(sectors, k) == 0 {
        assert (laps + 1) * (16 * sectors - 1) == laps * (16 * sectors - 1) + 16 * sectors - 1;
        laps := laps + 1;
      }
    }
  }

  lemma RemainderIs(n: nat, laps: nat, r: nat)
    requires r < n
    ensures (laps * n + r) % n == r
  {
    QuotientIs(laps * n + r, n, laps, r);
    assert laps * n + r == laps * n + (laps * n + r) % n;
  }

  lemma HeadIsModulo(sectors: nat, k: nat)
    requires sectors >= 2
    ensures HeadAfter(sectors, k) == k % (16 * sectors - 1)
  {
    var laps := HeadIsRemainder(sectors, k);
    RemainderIs(16 * sectors - 1, laps, HeadAfter(sectors, k));
  }

  /** The records from number `from` up to `k`. */
  function Numbered(readings: nat -> Measurement, from: nat, k: nat): seq<Record>
    requires from <= k < TWO_TO_THE_64
  {
    seq(k - from, i requires 0 <= i < k - from => StoredRecord(Record(from + i, readings(from + i))))
  }

  lemma NumberedRemain(sectors: nat, readings: nat -> Measurement, k: nat, q: Queue)
    requires sectors >= 2 && 0 < k < TWO_TO_THE_64 && q == RingQueue(sectors, readings, k - 1)
    requires Contents(q.slots) == Numbered(readings, OldestAfter(sectors, k - 1), k - 1)
    ensures Remaining(q) + [StoredRecord(Record(k - 1, readings(k - 1)))] == Numbered(readings, OldestAfter(sectors, k), k)
  {
    hide Contents, HeadAfter, Ring;
    var kept := OldestAfter(sectors, k);
    assert Remaining(q) == Numbered(readings, kept, k - 1);
    assert Numbered(readings, kept, k) == Numbered(readings, kept, k - 1) + [StoredRecord(Record(k - 1, readings(k - 1)))];
  }

  lemma NothingYet(sectors: nat, readings: nat -> Measurement)
    requires sectors >= 2
    ensures Good(Outage(sectors, readings, 0))
    ensures Contents(Outage(sectors, readings, 0).slots) == Numbered(readings, OldestAfter(sectors, 0), 0)
  {
    BlankIsGood(sectors);
    assert Outage(sectors, readings, 0).slots == Blank(sectors);
    hide Good, Contents;
  }

  lemma OneMoreRecord(sectors: nat, readings: nat -> Measurement, k: nat)
    requires sectors >= 2 && 0 < k < TWO_TO_THE_64 && Good(Outage(sectors, readings, k - 1))
    requires Contents(Outage(sectors, readings, k - 1).slots) == Numbered(readings, OldestAfter(sectors, k - 1), k - 1)
    ensures Good(Outage(sectors, readings, k))
    ensures Contents(Outage(sectors, readings, k).slots) == Numbered(readings, OldestAfter(sectors, k), k)
  {
    hide Good, Contents, Append, Ring, HeadAfter, Remaining, Numbered;
    var q := Outage(sectors, readings, k - 1);
    OutageIsRing(sectors, readings, k - 1);
    RingAppend(sectors, readings, k - 1);
    AppendMeaning(q, readings(k - 1));
    NumberedRemain(sectors, readings, k, q);
  }

  lemma {:induction false} OutageContents(sectors: nat, readings: nat -> Measurement, k: nat)
    requires sectors >= 2 && k < TWO_TO_THE_64
    ensures Good(Outage(sectors, readings, k))
    ensures Contents(Outage(sectors, readings, k).slots) == Numbered(readings, OldestAfter(sectors, k), k)
  {
    hide Good, Contents, Outage, Numbered, OldestAfter;
    if k == 0 {
      NothingYet(sectors, readings);
    } else {
      OutageContents(sectors, readings, k - 1);
      OneMoreRecord(sectors, readings, k);
    }
  }

  /** An outage never fails: for every number of sectors and records, record number k is accepted,
      goes to slot k modulo the ring, and the queue then holds exactly the newest records, as many
      as its capacity allows; the rest are counted as dropped. */
  lemma OutageNeverFails(sectors: nat, readings: nat -> Measurement, k: nat)
    requires sectors >= 2 && k + 1 < TWO_TO_THE_64
    ensures var (q, r) := Append(Outage(sectors, readings, k), readings(k));
            var slot := k % (16 * sectors - 1);
            var lost := if k + 1 <= Capacity(q.slots) then 0 else k + 1 - Capacity(q.slots);
            && r == Ok(Record(k, readings(k)))
            && slot < |q.slots| && q.slots[slot] == Active(StoredRecord(Record(k, readings(k))))
            && Contents(q.slots) == Numbered(readings, lost, k + 1)
            && q.depth == k + 1 - lost && q.dropped == lost
  {
    hide Contents, Append, HeadAfter, Ring, Outage;
    OutageIsRing(sectors, readings, k);
    RingAppend(sectors, readings, k);
    OutageContents(sectors, readings, k + 1);
    OutageIsRing(sectors, readings, k + 1);
    HeadIsModulo(sectors, k);
    Placed(sectors, readings, k);
  }

  lemma Placed(sectors: nat, readings: nat -> Measurement, k: nat)
    requires sectors >= 2 && k + 1 < TWO_TO_THE_64
    ensures var f := RingQueue(sectors, readings, k + 1).slots; var slot := HeadAfter(sectors, k);
            |f| == 16 * sectors && f[slot] == Active(StoredRecord(Record(k, readings(k))))
  {
    hide HeadAfter;
    NextHeadAfter(sectors, k);
  }
}
