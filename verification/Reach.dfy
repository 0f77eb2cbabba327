/** Runs of the step system built on purpose: what the operations, power cuts and storage errors can
    lead to. */
module Reach {
  import opened Types
  import opened Slots
  import opened Fifo
  import opened FlashSteps
  import opened QueueModel
  import opened CrashSafety
  import opened Starvation
  import opened Delivery

  function Last(run: seq<World>): World
    requires run != []
  {
    run[|run| - 1]
  }

  ghost predicate AtRest(run: seq<World>, f: Region, n: u64) {
    && run != [] && IsRun(run) && Last(run).slots == f && Last(run).next == Some(n)
    && Last(run).pending == [] && Last(run).upload == Idle
  }

  ghost predicate Off(run: seq<World>, f: Region) {
    && run != [] && IsRun(run) && Last(run).slots == f && Last(run).next == None
    && Last(run).pending == [] && Last(run).upload == Idle
  }

  /** An operation has just begun. */
  ghost predicate Under(run: seq<World>, f: Region, n: u64, steps: seq<Step>) {
    && run != [] && IsRun(run) && Last(run).slots == f && Last(run).next == Some(n)
    && Last(run).pending == steps && Last(run).upload == Idle
  }

  lemma OneMore(run: seq<World>, v: World) returns (longer: seq<World>)
    requires run != [] && IsRun(run) && Next(Last(run), v)
    ensures run < longer && IsRun(longer) && Last(longer) == v
  {
    hide Next;
    longer := run + [v];
    forall k | 0 <= k < |longer| - 1 ensures Next(longer[k], longer[k + 1]) {
      if k < |run| - 1 {
        assert longer[k] == run[k] && longer[k + 1] == run[k + 1];
      } else {
        assert longer[k] == Last(run) && longer[k + 1] == v;
      }
    }
  }

  lemma LastInv(run: seq<World>)
    requires IsRun(run)
    ensures Inv(Last(run))
  {
    RunInv(run, |run| - 1);
  }

  lemma RestIsGood(run: seq<World>, f: Region, n: u64)
    requires AtRest(run, f, n)
    ensures Sound(f) && MaxSequence(f) < n && Good(Queue(f, ActiveCount(f), n, 0))
  {
    LastInv(run);
    hide Delivered, Uploading, Evicting, AllEnabled, IsRun;
  }

  // ----- what an operation under way can become

  lemma FlashMoves(w: World)
    requires w.pending != []
    ensures var v := Noted(w, Do(w.slots, w.pending[0])).(pending := w.pending[1..]);
            Next(w, v) && v.slots == Do(w.slots, w.pending[0]) && v.next == w.next && v.upload == w.upload
  {
    NotedKeeps(w, Do(w.slots, w.pending[0]));
    hide Noted, Do;
    assert FlashStep(w, Noted(w, Do(w.slots, w.pending[0])).(pending := w.pending[1..]));
  }

  lemma {:induction false} Finish(run: seq<World>, f: Region, n: u64, steps: seq<Step>) returns (longer: seq<World>)
    requires Under(run, f, n, steps)
    ensures run <= longer && AtRest(longer, DoAll(f, steps), n)
    decreases steps
  {
    hide Next, Noted, Do, IsRun;
    longer := run;
    if steps != [] {
      var w := Last(run);
      FlashMoves(w);
      var one := OneMore(run, Noted(w, Do(w.slots, w.pending[0])).(pending := w.pending[1..]));
      longer := Finish(one, Do(f, steps[0]), n, steps[1..]);
    }
  }

  lemma CutsNow(w: World, g: Region)
    requires w.upload == Idle && (if w.pending == [] then g == w.slots else g == w.slots || Torn(w.slots, w.pending[0], g))
    ensures var v := (if w.pending == [] then w else Noted(w, g)).(next := None, pending := [], upload := Idle);
            Next(w, v) && v.slots == g
  {
    var v := (if w.pending == [] then w else Noted(w, g)).(next := None, pending := [], upload := Idle);
    if w.pending != [] {
      NotedKeeps(w, g);
    }
    hide Noted;
    assert PowerCut(w, g, v);
  }

  lemma {:induction false} CutOff(run: seq<World>, f: Region, n: u64, steps: seq<Step>, g: Region) returns (longer: seq<World>)
    requires Under(run, f, n, steps) && Cut(f, steps, g)
    ensures run <= longer && Off(longer, g)
    decreases steps
  {
    hide Next, Noted, Do, IsRun, Torn;
    var w := Last(run);
    if g == f || Torn(f, steps[0], g) {
      CutsNow(w, g);
      longer := OneMore(run, (if w.pending == [] then w else Noted(w, g)).(next := None, pending := [], upload := Idle));
    } else {
      FlashMoves(w);
      var one := OneMore(run, Noted(w, Do(w.slots, w.pending[0])).(pending := w.pending[1..]));
      longer := CutOff(one, Do(f, steps[0]), n, steps[1..], g);
    }
  }

  lemma FailsNow(w: World, n: u64)
    requires w.pending != [] && w.pending[0].Erase? && w.next == Some(n) && MaxSequence(w.slots) < n
    ensures Next(w, w.(pending := []))
  {
    hide MaxSequence;
    assert StorageError(w, w.slots, n, w.(pending := []));
  }

  /** The erasures an operation ends with may all fail and change nothing. */
  lemma ErasuresFail(run: seq<World>, f: Region, n: u64, steps: seq<Step>) returns (longer: seq<World>)
    requires Under(run, f, n, steps) && OnlyErases(steps)
    ensures run <= longer && AtRest(longer, f, n)
  {
    hide Next, IsRun, MaxSequence;
    longer := run;
    if steps != [] {
      LastInv(run);
      assert MaxSequence(f) < n by {
        hide Explained, Delivered, Uploading, Evicting, AllEnabled;
      }
      FailsNow(Last(run), n);
      longer := OneMore(run, Last(run).(pending := []));
    }
  }

  lemma FailsHere(w: World, g: Region, n: u64)
    requires w.pending != [] && w.next.Some? && MaxSequence(g) < n <= w.next.value && Torn(w.slots, w.pending[0], g)
    ensures var v := Noted(w, g).(pending := [], next := Some(n));
            Next(w, v) && v.slots == g && v.upload == w.upload
  {
    NotedKeeps(w, g);
    hide MaxSequence, Noted, Torn;
    assert StorageError(w, g, n, Noted(w, g).(pending := [], next := Some(n)));
  }

  /** An operation may be abandoned anywhere with the power still on. */
  lemma {:induction false} Abandon(run: seq<World>, f: Region, n: u64, steps: seq<Step>, g: Region, spent: u64) returns (longer: seq<World>)
    requires Under(run, f, n, steps) && steps != [] && Cut(f, steps, g) && MaxSequence(g) < spent <= n
    ensures run <= longer && AtRest(longer, g, spent)
    decreases steps
  {
    var w := Last(run);
    assert Torn(f, steps[0], f) && Torn(f, steps[0], Do(f, steps[0])) by {
      TornAtTheEnds(f, steps[0]);
    }
    hide Next, Noted, Do, IsRun, Torn, MaxSequence;
    if g == f || Torn(f, steps[0], g) {
      FailsHere(w, g, spent);
      longer := OneMore(run, Noted(w, g).(pending := [], next := Some(spent)));
    } else {
      FlashMoves(w);
      var one := OneMore(run, Noted(w, Do(w.slots, w.pending[0])).(pending := w.pending[1..]));
      longer := Abandon(one, Do(f, steps[0]), n, steps[1..], g, spent);
    }
  }

  lemma TornAtTheEnds(f: Region, step: Step)
    ensures Torn(f, step, f) && Torn(f, step, Do(f, step))
  {}

  // ----- beginnings

  lemma PowerOn(sectors: nat) returns (run: seq<World>)
    requires sectors >= 2
    ensures Off(run, Blank(sectors))
  {
    run := [World(Blank(sectors), None, [], false, Idle, [], 0, {}, [])];
  }

  lemma BootUp(run: seq<World>, f: Region) returns (longer: seq<World>)
    requires Off(run, f) && MaxSequence(f) + 1 < TWO_TO_THE_64
    ensures run <= longer && Under(longer, f, NextAfter(f), ReclaimSteps(f))
  {
    hide IsRun, MaxSequence, NextAfter, ReclaimSteps;
    var w := Last(run);
    var v := w.(next := Some(NextAfter(f)), pending := ReclaimSteps(f), retiring := false);
    assert Boot(w, v);
    longer := OneMore(run, v);
  }

  lemma StartAppend(run: seq<World>, f: Region, n: u64, m: Measurement) returns (longer: seq<World>)
    requires AtRest(run, f, n) && n + 1 < TWO_TO_THE_64
    ensures run <= longer && Under(longer, f, n + 1, AppendSteps(Queue(f, ActiveCount(f), n, 0), m))
  {
    hide IsRun, AppendSteps, ActiveCount;
    var w := Last(run);
    var v := w.(next := Some(n + 1), pending := AppendSteps(QueueOf(w), m), retiring := false);
    assert Capture(w, m, v);
    longer := OneMore(run, v);
  }

  lemma StartAcknowledge(run: seq<World>, f: Region, n: u64) returns (longer: seq<World>)
    requires AtRest(run, f, n)
    ensures run <= longer && Under(longer, f, n, AcknowledgeSteps(f))
  {
    hide IsRun, AcknowledgeSteps;
    if Oldest(f) == None {
      longer := run;
      assert AcknowledgeSteps(f) == [] by { NothingToAcknowledge(f); }
    } else {
      var w := Last(run);
      var head := f[Oldest(f).value].record;
      hide OldestBelow;
      var published := w.(upload := Published(head, false));
      assert Publish(w, published);
      var one := OneMore(run, published);
      var delivered := published.(upload := Published(head, true), broker := w.broker + [head]);
      assert Deliver(published, delivered);
      var two := OneMore(one, delivered);
      var retiring := delivered.(upload := Idle, pending := AcknowledgeSteps(f), retiring := true);
      assert Puback(delivered, retiring);
      longer := OneMore(two, retiring);
    }
  }

  lemma NothingToAcknowledge(f: Region)
    requires Oldest(f) == None
    ensures AcknowledgeSteps(f) == []
  {}

  // ----- whole operations

  lemma PutAlone(f: Region, n: u64, m: Measurement)
    requires ActiveCount(f) < Capacity(f) && FirstErased(f).Some?
    ensures var i, r := FirstErased(f).value, Record(n, m);
            AppendSteps(Queue(f, ActiveCount(f), n, 0), m) == [Put(i, r)] + ReclaimSteps(f[i := Active(StoredRecord(r))])
  {
    hide ReclaimSteps;
  }

  /** An append whose erasures, if any, fail. */
  lemma RestAppend(run: seq<World>, f: Region, n: u64, m: Measurement) returns (longer: seq<World>)
    requires AtRest(run, f, n) && n + 1 < TWO_TO_THE_64
    requires ActiveCount(f) < Capacity(f) && FirstErased(f).Some?
    ensures run <= longer && AtRest(longer, f[FirstErased(f).value := Active(StoredRecord(Record(n, m)))], n + 1)
  {
    var i, r := FirstErased(f).value, Record(n, m);
    var g := f[i := Active(StoredRecord(r))];
    PutAlone(f, n, m);
    ReclaimOnlyErases(g, 0);
    hide IsRun, AppendSteps, ReclaimStepsFrom, Noted, Next, ActiveCount, FirstErased;
    var one := StartAppend(run, f, n, m);
    var w := Last(one);
    FlashMoves(w);
    var two := OneMore(one, Noted(w, Do(w.slots, w.pending[0])).(pending := w.pending[1..]));
    longer := ErasuresFail(two, g, n + 1, ReclaimSteps(g));
  }

  lemma TornPut(f: Region, i: nat, r: Record, steps: seq<Step>)
    requires i < |f|
    ensures Cut(f, [Put(i, r)] + steps, f[i := Corrupt])
  {
    assert Torn(f, Put(i, r), f[i := Corrupt]);
  }

  lemma TornKeepsNext(f: Region, i: nat)
    requires i < |f| && f[i].Erased?
    ensures MaxSequence(f[i := Corrupt]) == MaxSequence(f) && NextAfter(f[i := Corrupt]) == NextAfter(f)
  {
    CorruptLoses(f, i);
    LosingKeepsNewest(f, f[i := Corrupt]);
  }

  /** An append cut in its body. */
  lemma CutInBody(run: seq<World>, f: Region, n: u64, m: Measurement) returns (longer: seq<World>)
    requires AtRest(run, f, n) && n + 1 < TWO_TO_THE_64
    requires ActiveCount(f) < Capacity(f) && FirstErased(f).Some?
    ensures run <= longer && Off(longer, f[FirstErased(f).value := Corrupt])
  {
    hide AtRest, Under, Off, AppendSteps, ReclaimSteps, ActiveCount, FirstErasedFrom, Cut;
    var i, r := FirstErased(f).value, Record(n, m);
    var rest := ReclaimSteps(f[i := Active(StoredRecord(r))]);
    PutAlone(f, n, m);
    TornPut(f, i, r, rest);
    var one := StartAppend(run, f, n, m);
    longer := CutOff(one, f, n + 1, [Put(i, r)] + rest, f[i := Corrupt]);
  }

  lemma SmallSequences(run: seq<World>, f: Region, n: u64)
    requires AtRest(run, f, n)
    ensures MaxSequence(f) < n
  {
    hide AtRest, Sound, MaxSequence;
    RestIsGood(run, f, n);
  }

  /** ... and a restart that has nothing to erase. */
  lemma RestTorn(run: seq<World>, f: Region, n: u64, m: Measurement) returns (longer: seq<World>)
    requires AtRest(run, f, n) && n + 1 < TWO_TO_THE_64
    requires ActiveCount(f) < Capacity(f) && FirstErased(f).Some? && Reclaimed(f[FirstErased(f).value := Corrupt])
    ensures run <= longer && AtRest(longer, f[FirstErased(f).value := Corrupt], NextAfter(f))
  {
    hide AtRest, Under, Off, ReclaimSteps, ActiveCount, FirstErasedFrom, NextAfter, Reclaimed, MaxSequence;
    var g := f[FirstErased(f).value := Corrupt];
    SmallSequences(run, f, n);
    TornKeepsNext(f, FirstErased(f).value);
    ReclaimedIsFixed(g);
    var off := CutInBody(run, f, n, m);
    var one := BootUp(off, g);
    longer := Finish(one, g, NextAfter(g), []);
  }

  /** An acknowledgment whose erasures, if any, fail. */
  lemma RestAcknowledge(run: seq<World>, f: Region, n: u64) returns (longer: seq<World>)
    requires AtRest(run, f, n) && Oldest(f).Some?
    ensures run <= longer && AtRest(longer, RetireAt(f, Oldest(f).value), n)
  {
    var i := Oldest(f).value;
    var g := RetireAt(f, i);
    ReclaimOnlyErases(g, 0);
    assert AcknowledgeSteps(f) == [Retire(i)] + ReclaimSteps(g);
    hide IsRun, AcknowledgeSteps, ReclaimStepsFrom, Noted, Next, OldestBelow;
    var one := StartAcknowledge(run, f, n);
    var w := Last(one);
    FlashMoves(w);
    var two := OneMore(one, Noted(w, Do(w.slots, w.pending[0])).(pending := w.pending[1..]));
    longer := ErasuresFail(two, g, n, ReclaimSteps(g));
  }

  lemma BlankAtRest(sectors: nat) returns (run: seq<World>)
    requires sectors >= 2
    ensures AtRest(run, Blank(sectors), 0)
  {
    var f := Blank(sectors);
    assert Newest(f) == None;
    forall s | 0 <= s < Sectors(f) ensures SectorErased(f, s) {}
    ReclaimedIsFixed(f);
    hide IsRun, ReclaimSteps, NewestBelow, Reclaimed;
    var off := PowerOn(sectors);
    run := BootUp(off, f);
  }

  // ----- the tight region

  /** The first `k` slots are as in the tight region, the rest still erased. */
  function TornSoFar(sectors: nat, m: Measurement, k: nat): (f: Region)
    requires 2 <= sectors < TWO_TO_THE_64
    ensures |f| == 16 * sectors
  {
    seq(16 * sectors, i requires 0 <= i < 16 * sectors =>
      if i >= k then Erased else if i % 16 == 0 then Active(StoredRecord(Record(i / 16, m))) else Corrupt)
  }

  lemma {:induction false} TornSoFarCount(sectors: nat, m: Measurement, k: nat, n: nat)
    requires 2 <= sectors < TWO_TO_THE_64 && n <= 16 * sectors
    ensures ActiveBelow(TornSoFar(sectors, m, k), n) == (if n <= k then (n + 15) / 16 else (k + 15) / 16)
  {
    if n > 0 {
      assert TornSoFar(sectors, m, k)[n - 1].Active? <==> n - 1 < k && (n - 1) % 16 == 0;
      hide TornSoFar;
      TornSoFarCount(sectors, m, k, n - 1);
      OneMoreSixteenth(n);
    }
  }

  lemma TornSoFarFacts(sectors: nat, m: Measurement, k: nat)
    requires 2 <= sectors < TWO_TO_THE_64 && k < 16 * sectors
    ensures var f := TornSoFar(sectors, m, k);
            && FirstErased(f) == Some(k) && ActiveCount(f) < Capacity(f)
            && (k % 16 != 0 ==> f[k := Corrupt] == TornSoFar(sectors, m, k + 1))
            && (k % 16 == 0 ==> f[k := Active(StoredRecord(Record(k / 16, m)))] == TornSoFar(sectors, m, k + 1))
  {
    var f := TornSoFar(sectors, m, k);
    assert f[k].Erased?;
    TornSoFarCount(sectors, m, k, 16 * sectors);
    hide ActiveBelow;
  }

  lemma TornSoFarNext(sectors: nat, m: Measurement, k: nat)
    requires 2 <= sectors < TWO_TO_THE_64 - 1 && k <= 16 * sectors
    ensures NextAfter(TornSoFar(sectors, m, k)) == (k + 15) / 16
  {
    var f := TornSoFar(sectors, m, k);
    if k == 0 {
      assert Newest(f) == None;
    } else {
      NewestIs(f, 16 * ((k - 1) / 16));
    }
  }

  lemma TornSoFarReclaimed(sectors: nat, m: Measurement, k: nat)
    requires 2 <= sectors < TWO_TO_THE_64 && k <= 16 * sectors
    ensures Reclaimed(TornSoFar(sectors, m, k))
  {
    var f := TornSoFar(sectors, m, k);
    forall s | 0 <= s < Sectors(f) ensures SectorErased(f, s) || HasActive(f, s) {
      if 16 * s < k {
        assert f[16 * s].Active?;
      }
    }
  }

  lemma {:induction false} TornSoFarReached(sectors: nat, m: Measurement, k: nat) returns (run: seq<World>)
    requires 2 <= sectors < TWO_TO_THE_64 - 1 && k <= 16 * sectors
    ensures AtRest(run, TornSoFar(sectors, m, k), (k + 15) / 16)
  {
    hide AtRest, FirstErased, ActiveCount, Reclaimed, NextAfter;
    if k == 0 {
      run := BlankAtRest(sectors);
      assert TornSoFar(sectors, m, 0) == Blank(sectors);
    } else {
      var before := TornSoFarReached(sectors, m, k - 1);
      TornSoFarFacts(sectors, m, k - 1);
      TornSoFarReclaimed(sectors, m, k);
      TornSoFarNext(sectors, m, k - 1);
      hide TornSoFar;
      var f := TornSoFar(sectors, m, k - 1);
      if (k - 1) % 16 == 0 {
        run := RestAppend(before, f, (k + 14) / 16, m);
      } else {
        run := RestTorn(before, f, (k + 14) / 16, m);
      }
    }
  }

  /** The region in which every sector holds one waiting record and nothing is erased, where the
      bound on starvation is met, is reached by appends cut in their bodies. */
  lemma TightRegionReached(sectors: nat, m: Measurement) returns (run: seq<World>)
    requires 2 <= sectors < TWO_TO_THE_64 - 1
    ensures AtRest(run, TornRegion(sectors, m), sectors)
  {
    hide AtRest;
    run := TornSoFarReached(sectors, m, 16 * sectors);
    assert TornSoFar(sectors, m, 16 * sectors) == TornRegion(sectors, m);
  }

  // ----- the drained region that refuses

  /** `k` records appended to two sectors, the first `a` of them acknowledged, nothing erased since. */
  function Filled(m: Measurement, k: nat, a: nat): (f: Region)
    requires k <= 32
    ensures |f| == 32
  {
    seq(32, i requires 0 <= i < 32 =>
      if i >= k then Erased else if i >= a then Active(StoredRecord(Record(i, m))) else Acknowledged(Some(StoredRecord(Record(i, m)))))
  }

  lemma {:induction false} FilledCount(m: Measurement, k: nat, a: nat, n: nat)
    requires a <= k <= 32 && n <= 32
    ensures ActiveBelow(Filled(m, k, a), n) == (if n <= a then 0 else if n <= k then n - a else k - a)
  {
    if n > 0 {
      FilledCount(m, k, a, n - 1);
    }
  }

  lemma FilledPut(m: Measurement, k: nat, a: nat)
    requires a <= k < 32 && k < a + 16
    ensures var f := Filled(m, k, a);
            && FirstErased(f) == Some(k) && ActiveCount(f) < Capacity(f)
            && f[k := Active(StoredRecord(Record(k, m)))] == Filled(m, k + 1, a)
  {
    assert Filled(m, k, a)[k].Erased?;
    FilledCount(m, k, a, 32);
    hide ActiveBelow;
  }

  lemma FilledRetire(m: Measurement, k: nat, a: nat)
    requires a < k <= 32
    ensures Oldest(Filled(m, k, a)) == Some(a) && RetireAt(Filled(m, k, a), a) == Filled(m, k, a + 1)
  {
    OldestIs(Filled(m, k, a), a);
  }

  lemma {:induction false} FillOn(run: seq<World>, m: Measurement, k: nat, a: nat, n: nat) returns (longer: seq<World>)
    requires a <= k <= n <= 32 && n <= a + 16 && AtRest(run, Filled(m, k, a), k)
    ensures AtRest(longer, Filled(m, n, a), n)
    decreases n - k
  {
    hide AtRest, FirstErased, ActiveCount, Filled;
    longer := run;
    if k < n {
      FilledPut(m, k, a);
      var one := RestAppend(run, Filled(m, k, a), k, m);
      longer := FillOn(one, m, k + 1, a, n);
    }
  }

  lemma {:induction false} DrainOn(run: seq<World>, m: Measurement, k: nat, a: nat) returns (longer: seq<World>)
    requires a <= k <= 32 && AtRest(run, Filled(m, k, a), k)
    ensures AtRest(longer, Filled(m, k, k), k)
    decreases k - a
  {
    hide AtRest, Oldest, Filled;
    longer := run;
    if a < k {
      FilledRetire(m, k, a);
      var one := RestAcknowledge(run, Filled(m, k, a), k);
      longer := DrainOn(one, m, k, a + 1);
    }
  }

  /** If every erasure fails while two sectors are filled and drained, the session ends up with an
      empty queue that refuses every append. */
  lemma DrainedRegionReached(m: Measurement) returns (run: seq<World>)
    ensures AtRest(run, DrainedRegion(m), 32)
  {
    hide AtRest;
    var blank := BlankAtRest(2);
    assert Filled(m, 0, 0) == Blank(2);
    var half := FillOn(blank, m, 0, 0, 16);
    var drained := DrainOn(half, m, 16, 0);
    var full := FillOn(drained, m, 16, 16, 32);
    run := DrainOn(full, m, 32, 16);
    assert Filled(m, 32, 32) == DrainedRegion(m);
  }
}
