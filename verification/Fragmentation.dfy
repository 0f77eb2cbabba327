/** A run without any power cut after which measurements are refused below capacity: eighteen
    appends, sixteen acknowledgments, then appends only. For every region of three sectors or more. */
module Fragmentation {
  import opened Types
  import opened Slots
  import opened Fifo
  import opened QueueModel
  import opened CrashSafety
  import opened Wear
  import opened Outage
  import opened Starvation
  import opened Session

  function StoredAt(readings: nat -> Measurement, i: nat): Record
    requires i < TWO_TO_THE_64
  {
    StoredRecord(Record(i, readings(i)))
  }

  // ----- the calls

  function AppendCalls(readings: nat -> Measurement, k: nat): seq<Call> {
    if k == 0 then [] else AppendCalls(readings, k - 1) + [CallAppend(readings(k - 1))]
  }

  function AcknowledgeCalls(readings: nat -> Measurement, a: nat): seq<Call> {
    if a == 0 then AppendCalls(readings, 18) else AcknowledgeCalls(readings, a - 1) + [CallAcknowledge]
  }

  /** `n` appends in all, with the sixteen acknowledgments after the eighteenth. */
  function FragmentingCalls(readings: nat -> Measurement, n: nat): seq<Call>
    requires n >= 18
  {
    if n == 18 then AcknowledgeCalls(readings, 16)
    else FragmentingCalls(readings, n - 1) + [CallAppend(readings(n - 1))]
  }

  // ----- sixteen acknowledgments

  function Prefix(sectors: nat, readings: nat -> Measurement, a: nat): (f: Region)
    requires sectors >= 3
    ensures |f| == 16 * sectors
  {
    seq(16 * sectors, j requires 0 <= j < 16 * sectors =>
      if j >= 18 then Erased else if j >= a then Active(StoredAt(readings, j)) else Acknowledged(Some(StoredAt(readings, j))))
  }

  lemma PrefixFacts(sectors: nat, readings: nat -> Measurement, a: nat)
    requires sectors >= 3 && a < 16
    ensures var f := Prefix(sectors, readings, a);
            Oldest(f) == Some(a) && Newest(f) == Some(17) && RetireAt(f, a) == Prefix(sectors, readings, a + 1)
  {
    OldestIs(Prefix(sectors, readings, a), a);
    NewestIs(Prefix(sectors, readings, a), 17);
  }

  lemma PrefixReclaims(sectors: nat, readings: nat -> Measurement, a: nat)
    requires sectors >= 3 && 0 < a <= 16
    ensures Reclaim(Prefix(sectors, readings, a))
            == if a < 16 then Prefix(sectors, readings, a) else Woven(sectors, readings, 18, 16)
  {
    var f := Prefix(sectors, readings, a);
    NewestIs(f, 17);
    assert f[17].Active? && f[0].Acknowledged? && f[15].Decodable();
    assert HasActive(f, 1);
    if a < 16 {
      assert f[15].Active?;
      assert HasActive(f, 0);
    } else {
      assert Dirty(f, 0);
      assert Reclaimable(f, 0);
    }
    forall s: nat | s >= 2 ensures !Dirty(f, s) {}
    var g := if a < 16 then f else Woven(sectors, readings, 18, 16);
    forall j | 0 <= j < 16 * sectors ensures Reclaim(f)[j] == g[j] {
      hide NewestBelow, HasActive, HoldsNewest, Dirty;
    }
  }

  // ----- appends only

  /** Slots 16 and 17 keep the two records that were not acknowledged; sector 0 was erased around
      them and is filled first. */
  function NumberAt(j: nat): nat {
    if j < 16 then 18 + j else if j < 18 then j else j + 16
  }

  function Woven(sectors: nat, readings: nat -> Measurement, n: nat, oldest: nat): (f: Region)
    requires sectors >= 3 && n < TWO_TO_THE_64
    ensures |f| == 16 * sectors
  {
    seq(16 * sectors, j requires 0 <= j < 16 * sectors =>
      var i := NumberAt(j);
      if i >= n then Erased else if i >= oldest then Active(StoredAt(readings, i)) else Acknowledged(Some(StoredAt(readings, i))))
  }

  ghost predicate WovenFits(sectors: nat, n: nat, oldest: nat) {
    && sectors >= 3 && 18 <= n <= 16 * sectors + 16 && n < TWO_TO_THE_64
    && (oldest == 16 || (n >= 16 * sectors && 16 <= oldest <= 33))
  }

  lemma WovenSettled(sectors: nat, readings: nat -> Measurement, n: nat, oldest: nat)
    requires WovenFits(sectors, n, oldest)
    ensures Reclaimed(Woven(sectors, readings, n, oldest))
  {
    var f := Woven(sectors, readings, n, oldest);
    forall s | 0 <= s < sectors ensures SectorErased(f, s) || HasActive(f, s) {
      if !SectorErased(f, s) {
        var j :| 16 * s <= j < 16 * s + 16 && j < |f| && !f[j].Erased?;
        var l := if s == 0 && oldest > 16 then 15 else if s == 1 && oldest > 16 then 18 else j;
        assert f[l].Active?;
      }
    }
    hide SectorErased, HasActive, Woven;
  }

  lemma WovenOldest(sectors: nat, readings: nat -> Measurement, n: nat, oldest: nat)
    requires WovenFits(sectors, n, oldest) && oldest <= 32 && n >= 48
    ensures var f := Woven(sectors, readings, n, oldest); var o := if oldest < 18 then oldest else oldest - 18;
            Oldest(f) == Some(o) && RetireAt(f, o) == Woven(sectors, readings, n, oldest + 1)
  {
    hide OldestBelow, ActiveBelow;
    OldestIs(Woven(sectors, readings, n, oldest), if oldest < 18 then oldest else oldest - 18);
  }

  lemma WovenHead(sectors: nat, readings: nat -> Measurement, n: nat, oldest: nat)
    requires WovenFits(sectors, n, oldest) && n + 1 < TWO_TO_THE_64
    ensures var f := Woven(sectors, readings, n, oldest); var head := if n < 34 then n - 18 else n - 16;
            if n < 16 * sectors + 16 then
              FirstErased(f) == Some(head) && f[head := Active(StoredAt(readings, n))] == Woven(sectors, readings, n + 1, oldest)
            else FirstErased(f) == None
  {
    var f, head := Woven(sectors, readings, n, oldest), if n < 34 then n - 18 else n - 16;
    if n < 16 * sectors + 16 {
      assert f[head].Erased?;
    }
  }

  function OldestWoven(sectors: nat, n: nat): nat {
    if n <= 16 * sectors then 16 else n + 16 - 16 * sectors
  }

  ghost function WovenQueue(sectors: nat, readings: nat -> Measurement, n: nat): Queue
    requires sectors >= 3 && 18 <= n < TWO_TO_THE_64
  {
    var oldest := OldestWoven(sectors, n);
    Queue(Woven(sectors, readings, n, oldest), n - oldest, n, oldest - 16)
  }

  /** The eviction frees no sector, because the next record of the same sector is still waiting. */
  lemma WovenEvicts(sectors: nat, readings: nat -> Measurement, n: nat)
    requires sectors >= 3 && 16 * sectors <= n <= 16 * sectors + 16 && n + 1 < TWO_TO_THE_64
    requires Consistent(WovenQueue(sectors, readings, n))
    ensures var oldest := OldestWoven(sectors, n + 1);
            Evict(WovenQueue(sectors, readings, n))
            == Queue(Woven(sectors, readings, n, oldest), n - oldest, n, oldest - 16)
  {
    hide Woven, Reclaim, Reclaimed;
    var q, oldest := WovenQueue(sectors, readings, n), OldestWoven(sectors, n);
    EvictIs(q);
    WovenOldest(sectors, readings, n, oldest);
    WovenSettled(sectors, readings, n, oldest + 1);
    ReclaimedIsFixed(Woven(sectors, readings, n, oldest + 1));
  }

  /** After the eviction, if one was due. */
  lemma WovenEvicted(sectors: nat, readings: nat -> Measurement, n: nat)
    requires sectors >= 3 && 18 <= n <= 16 * sectors + 16 && n + 1 < TWO_TO_THE_64
    requires Consistent(WovenQueue(sectors, readings, n))
    ensures var kept := OldestWoven(sectors, n + 1);
            WovenFits(sectors, n, kept)
            && Evict(WovenQueue(sectors, readings, n)) == Queue(Woven(sectors, readings, n, kept), n - kept, n, kept - 16)
  {
    hide Woven, Evict, Consistent;
    if n >= 16 * sectors {
      WovenEvicts(sectors, readings, n);
    } else {
      EvictIs(WovenQueue(sectors, readings, n));
    }
  }

  lemma WovenAppend(sectors: nat, readings: nat -> Measurement, n: nat)
    requires sectors >= 3 && 18 <= n < 16 * sectors + 16 && n + 1 < TWO_TO_THE_64
    requires Consistent(WovenQueue(sectors, readings, n))
    ensures Append(WovenQueue(sectors, readings, n), readings(n))
            == (WovenQueue(sectors, readings, n + 1), Ok(Record(n, readings(n))))
  {
    hide Woven, Reclaim, Reclaimed, FirstErased, Evict, Consistent, Append;
    var kept := OldestWoven(sectors, n + 1);
    AppendPlan(WovenQueue(sectors, readings, n), readings(n));
    WovenEvicted(sectors, readings, n);
    WovenHead(sectors, readings, n, kept);
    WovenSettled(sectors, readings, n + 1, kept);
    ReclaimedIsFixed(Woven(sectors, readings, n + 1, kept));
  }

  lemma WovenRefuses(sectors: nat, readings: nat -> Measurement, n: nat, m: Measurement)
    requires sectors >= 3 && n == 16 * sectors + 16 && n + 1 < TWO_TO_THE_64
    requires Consistent(WovenQueue(sectors, readings, n))
    ensures var (q, r) := Append(WovenQueue(sectors, readings, n), m);
            r == Err(InvalidGeometry) && q.depth == Capacity(q.slots) - 1
  {
    hide Woven, FirstErased, Evict, Consistent, Append;
    AppendPlan(WovenQueue(sectors, readings, n), m);
    WovenEvicted(sectors, readings, n);
    WovenHead(sectors, readings, n, OldestWoven(sectors, n + 1));
  }

  // ----- the whole run

  lemma {:induction false} AppendsAreOutage(sectors: nat, readings: nat -> Measurement, k: nat)
    requires sectors >= 2
    ensures Run(sectors, AppendCalls(readings, k)) == Outage.Outage(sectors, readings, k)
  {
    hide Append, Recover;
    if k > 0 {
      AppendsAreOutage(sectors, readings, k - 1);
      assert AppendCalls(readings, k)[..|AppendCalls(readings, k)| - 1] == AppendCalls(readings, k - 1);
    }
  }

  lemma PrefixStart(sectors: nat, readings: nat -> Measurement)
    requires sectors >= 3 && 16 * sectors + 17 < TWO_TO_THE_64
    ensures Run(sectors, AppendCalls(readings, 18)) == Queue(Prefix(sectors, readings, 0), 18, 18, 0)
  {
    hide Run, AppendCalls, Outage.Outage;
    AppendsAreOutage(sectors, readings, 18);
    OutageIsRing(sectors, readings, 18);
    FirstLap(sectors, 18);
    assert Ring(sectors, 18, 18, 0, readings) == Prefix(sectors, readings, 0);
  }

  lemma {:induction false} PrefixRun(sectors: nat, readings: nat -> Measurement, a: nat)
    requires sectors >= 3 && 16 * sectors + 17 < TWO_TO_THE_64 && a <= 16
    ensures Run(sectors, AcknowledgeCalls(readings, a))
            == Queue(if a < 16 then Prefix(sectors, readings, a) else Woven(sectors, readings, 18, 16), 18 - a, 18, 0)
  {
    hide Prefix, Woven, Reclaim, AppendCalls, Consistent, ReclaimSteps;
    if a == 0 {
      PrefixStart(sectors, readings);
    } else {
      PrefixRun(sectors, readings, a - 1);
      PrefixFacts(sectors, readings, a - 1);
      PrefixReclaims(sectors, readings, a);
      var calls := AcknowledgeCalls(readings, a);
      assert calls[..|calls| - 1] == AcknowledgeCalls(readings, a - 1);
    }
  }

  lemma {:induction false} WovenRun(sectors: nat, readings: nat -> Measurement, n: nat)
    requires sectors >= 3 && 16 * sectors + 17 < TWO_TO_THE_64 && 18 <= n <= 16 * sectors + 16
    ensures Run(sectors, FragmentingCalls(readings, n)) == WovenQueue(sectors, readings, n)
  {
    hide Woven, Append, AcknowledgeCalls;
    if n == 18 {
      PrefixRun(sectors, readings, 16);
    } else {
      WovenRun(sectors, readings, n - 1);
      WovenAppend(sectors, readings, n - 1);
      var calls := FragmentingCalls(readings, n);
      assert calls[..|calls| - 1] == FragmentingCalls(readings, n - 1);
    }
  }

  lemma {:induction false} CallCount(readings: nat -> Measurement, n: nat)
    requires n >= 18
    ensures |FragmentingCalls(readings, n)| == n + 16
  {
    if n == 18 {
      AppendCount(readings, 18);
      AcknowledgeCount(readings, 16);
    } else {
      CallCount(readings, n - 1);
    }
  }

  lemma AppendCount(readings: nat -> Measurement, k: nat)
    ensures |AppendCalls(readings, k)| == k
  {}

  lemma AcknowledgeCount(readings: nat -> Measurement, a: nat)
    ensures |AcknowledgeCalls(readings, a)| == 18 + a
  {
    if a == 0 {
      AppendCount(readings, 18);
    }
  }

  /** Every completed call of a run leaves a reclaimed region. */
  lemma {:induction false} RunIsReclaimed(sectors: nat, calls: seq<Call>)
    requires sectors >= 2
    ensures Reclaimed(Run(sectors, calls).slots)
  {
    hide Reclaimed, Recover, After, Reclaims;
    if calls == [] {
      RecoverSlots(Blank(sectors));
      ReclaimSettles(Blank(sectors));
    } else {
      var last := |calls| - 1;
      RunIsReclaimed(sectors, calls[..last]);
      AfterIsReclaimed(Run(sectors, calls[..last]), calls[last]);
    }
  }

  /** The documented promise that a full queue drops its oldest record and keeps capturing fails:
      this run loses no power, and the next measurement is refused with fewer records waiting than
      the capacity; so is every later one, through any number of appends and restarts, until an
      acknowledgment. */
  lemma FragmentationRefuses(sectors: nat, readings: nat -> Measurement, m: Measurement, calls: seq<Call>, later: Measurement)
    requires sectors >= 3 && NoAcknowledgment(calls) && 16 * sectors + |calls| + 32 < TWO_TO_THE_64
    ensures var (q, r) := Append(Run(sectors, FragmentingCalls(readings, 16 * sectors + 16)), m);
            && r == Err(InvalidGeometry) && q.depth == Capacity(q.slots) - 1 && Starved(q)
            && Play(q, calls).slots == q.slots && Append(Play(q, calls), later).1 == Err(InvalidGeometry)
  {
    hide Run, Append, Woven, Starved, Play;
    var n := 16 * sectors + 16;
    var q := WovenQueue(sectors, readings, n);
    WovenRun(sectors, readings, n);
    WovenRefuses(sectors, readings, n, m);
    CallCount(readings, n);
    RunGood(sectors, FragmentingCalls(readings, n));
    RunIsReclaimed(sectors, FragmentingCalls(readings, n));
    RefusalStarves(q, m);
    AppendNext(q, m);
    StarvedUntilAcknowledged(Append(q, m).0, calls, later);
  }

  lemma AppendNext(q: Queue, m: Measurement)
    requires Good(q) && q.next + 1 < TWO_TO_THE_64
    ensures Append(q, m).0.next == q.next + 1
  {
    AppendMeaning(q, m);
  }
}
