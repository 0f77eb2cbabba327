/** Whole lives of the flash memory: operations that complete, fail or are cut at any bit, any
    number of times, recoveries included. Every one of them is a run of the step system, so what holds of all
    its runs holds of the bytes. */
module MemoryRuns {
  import opened RecordCodec
  import opened Types
  import opened NorFlash
  import opened Slots
  import opened Fifo
  import opened FlashSteps
  import opened QueueModel
  import opened CrashSafety
  import opened PowerLoss
  import opened Wear
  import opened FlashImage
  import opened Delivery
  import opened Reach

  /** The memory, and the queue in RAM while the power is on. */
  datatype Machine = Machine(memory: Memory, queue: Option<Queue>)

  ghost predicate Runs(start: nat, slots: nat, a: Machine) {
    && Fits(a.memory, start, slots) && a.queue.Some?
    && Consistent(a.queue.value) && a.queue.value.slots == View(a.memory, start, slots)
    && a.queue.value.next + 1 < TWO_TO_THE_64
  }

  ghost predicate Operates(start: nat, slots: nat, a: Machine, call: Call, b: Machine) {
    && Runs(start, slots, a) && !call.CallRecover?
    && b == Machine(ApplyAll(a.memory, LowerAll(start, StepsOf(a.queue.value, call))), Some(After(a.queue.value, call)))
  }

  ghost predicate IsCut(start: nat, slots: nat, a: Machine, call: Call, b: Machine) {
    && Runs(start, slots, a) && !call.CallRecover? && b.queue == None
    && CutOps(a.memory, LowerAll(start, StepsOf(a.queue.value, call)), b.memory)
  }

  /** The flash reports an error and the session goes on: the memory is as after a cut, the depth is
      right, and the sequence is spent or not, according to how far the operation got. */
  ghost predicate Fails(start: nat, slots: nat, a: Machine, call: Call, b: Machine) {
    && Runs(start, slots, a) && !call.CallRecover? && b.queue.Some? && Consistent(b.queue.value)
    && CutOps(a.memory, LowerAll(start, StepsOf(a.queue.value, call)), b.memory)
    && |b.memory| == |a.memory| && b.queue.value.slots == View(b.memory, start, slots)
    && MaxSequence(b.queue.value.slots) < b.queue.value.next
    && b.queue.value.next in [a.queue.value.next, After(a.queue.value, call).next]
  }

  ghost predicate Dark(start: nat, slots: nat, a: Machine) {
    && Fits(a.memory, start, slots) && a.queue == None
    && MaxSequence(View(a.memory, start, slots)) + 1 < TWO_TO_THE_64
  }

  ghost predicate Recovers(start: nat, slots: nat, a: Machine, b: Machine) {
    && Dark(start, slots, a)
    && var f := View(a.memory, start, slots);
       b == Machine(ApplyAll(a.memory, LowerAll(start, ReclaimSteps(f))), Some(Recover(f)))
  }

  ghost predicate RecoveryIsCut(start: nat, slots: nat, a: Machine, b: Machine) {
    && Dark(start, slots, a) && b.queue == None
    && CutOps(a.memory, LowerAll(start, ReclaimSteps(View(a.memory, start, slots))), b.memory)
  }

  ghost predicate Moves(start: nat, slots: nat, a: Machine, b: Machine) {
    || (exists call :: Operates(start, slots, a, call, b))
    || (exists call :: IsCut(start, slots, a, call, b))
    || (exists call :: Fails(start, slots, a, call, b))
    || Recovers(start, slots, a, b)
    || RecoveryIsCut(start, slots, a, b)
  }

  /** It begins switched off, with a memory that reads as blank. */
  ghost predicate IsLife(start: nat, slots: nat, life: seq<Machine>) {
    && life != [] && slots >= 32 && slots % 16 == 0
    && Fits(life[0].memory, start, slots) && View(life[0].memory, start, slots) == Blank(slots / 16) && life[0].queue == None
    && forall k :: 0 <= k < |life| - 1 ==> Moves(start, slots, life[k], life[k + 1])
  }

  /** A freshly erased memory does. */
  lemma ErasedMemoryIsBlank(memory: Memory, start: nat, slots: nat)
    requires Fits(memory, start, slots)
    requires forall i :: 0 <= i < |memory| ==> memory[i] == ERASED
    ensures View(memory, start, slots) == Blank(slots / 16)
  {
    hide Decode;
    forall j | 0 <= j < slots ensures View(memory, start, slots)[j] == Erased {
      assert forall k :: 0 <= k < 256 ==> Page(memory, start, j)[k] == ERASED;
    }
    assert 16 * (slots / 16) == slots;
  }

  /** The run has got to where the machine is. */
  ghost predicate Matches(start: nat, slots: nat, a: Machine, run: seq<World>) {
    && Fits(a.memory, start, slots)
    && match a.queue
       case None => Off(run, View(a.memory, start, slots))
       case Some(q) =>
         Consistent(q) && q.slots == View(a.memory, start, slots) && AtRest(run, q.slots, q.next)
  }

  // ----- one move

  lemma SameSteps(q: Queue, m: Measurement)
    requires Consistent(q)
    ensures AppendSteps(q.(dropped := 0), m) == AppendSteps(q, m)
  {
    EvictIs(q);
    EvictIs(q.(dropped := 0));
    hide PutSteps, AcknowledgeSteps;
  }

  /** The step system starts the same operation. */
  lemma Begin(q: Queue, call: Call, run: seq<World>) returns (longer: seq<World>, n: u64)
    requires Consistent(q) && q.next + 1 < TWO_TO_THE_64 && !call.CallRecover? && AtRest(run, q.slots, q.next)
    ensures run <= longer && Good(q) && After(q, call).next == n
    ensures Under(longer, q.slots, n, StepsOf(q, call))
  {
    hide AppendSteps, AcknowledgeSteps, AtRest, Under, Sound, MaxSequence, ActiveCount, Contents, Evict;
    RestIsGood(run, q.slots, q.next);
    assert Queue(q.slots, ActiveCount(q.slots), q.next, 0) == q.(dropped := 0);
    match call
    case CallAppend(m) =>
      SameSteps(q, m);
      AppendEffect(q, m);
      n := q.next + 1;
      longer := StartAppend(run, q.slots, q.next, m);
    case CallAcknowledge =>
      AcknowledgeEffect(q);
      n := q.next;
      longer := StartAcknowledge(run, q.slots, q.next);
  }

  lemma FollowOperation(start: nat, slots: nat, a: Machine, call: Call, b: Machine, run: seq<World>) returns (longer: seq<World>)
    requires Operates(start, slots, a, call, b) && Matches(start, slots, a, run)
    ensures run <= longer && Matches(start, slots, b, longer)
  {
    hide StepsOf, AtRest, Under, View, ApplyAll, LowerAll, After, Sound, AllEnabled, DoAll, MaxSequence;
    var q := a.queue.value;
    var one, n := Begin(q, call, run);
    StepsEnabled(q, call);
    StepsRun(a.memory, start, slots, StepsOf(q, call));
    AfterConsistent(q, call);
    longer := Finish(one, q.slots, n, StepsOf(q, call));
  }

  lemma FollowCut(start: nat, slots: nat, a: Machine, call: Call, b: Machine, run: seq<World>) returns (longer: seq<World>)
    requires IsCut(start, slots, a, call, b) && Matches(start, slots, a, run)
    ensures run <= longer && Matches(start, slots, b, longer)
  {
    hide StepsOf, AtRest, Under, Off, View, CutOps, LowerAll, Sound, AllEnabled, Cut, MaxSequence;
    var q := a.queue.value;
    var one, n := Begin(q, call, run);
    WhateverTheBytes(a.memory, start, slots, q, call, b.memory);
    longer := CutOff(one, q.slots, n, StepsOf(q, call), View(b.memory, start, slots));
  }

  lemma FollowFailure(start: nat, slots: nat, a: Machine, call: Call, b: Machine, run: seq<World>) returns (longer: seq<World>)
    requires Fails(start, slots, a, call, b) && Matches(start, slots, a, run)
    ensures run <= longer && Matches(start, slots, b, longer)
  {
    hide StepsOf, AtRest, Under, View, CutOps, LowerAll, Sound, AllEnabled, Cut, MaxSequence, After;
    var q, g, spent := a.queue.value, b.queue.value.slots, b.queue.value.next;
    var one, n := Begin(q, call, run);
    WhateverTheBytes(a.memory, start, slots, q, call, b.memory);
    SpendsNoMore(q, call);
    if StepsOf(q, call) != [] {
      longer := Abandon(one, q.slots, n, StepsOf(q, call), g, spent);
    } else {
      NothingToCut(q.slots, g);
      if spent == n {
        longer := Finish(one, q.slots, n, []);
      } else {
        longer := run;
      }
    }
  }

  lemma NothingToCut(f: Region, g: Region)
    requires Cut(f, [], g)
    ensures g == f && DoAll(f, []) == f
  {}

  lemma SpendsNoMore(q: Queue, call: Call)
    requires Good(q) && q.next + 1 < TWO_TO_THE_64 && !call.CallRecover?
    ensures q.next <= After(q, call).next
  {
    hide Sound, MaxSequence, AppendSteps, AcknowledgeSteps;
    match call
    case CallAppend(m) => AppendEffect(q, m);
    case CallAcknowledge => AcknowledgeEffect(q);
  }

  lemma FollowRecovery(start: nat, slots: nat, a: Machine, b: Machine, run: seq<World>) returns (longer: seq<World>)
    requires Recovers(start, slots, a, b) && Matches(start, slots, a, run)
    ensures run <= longer && Matches(start, slots, b, longer)
  {
    hide AtRest, Under, Off, View, ApplyAll, LowerAll, ReclaimSteps, AllEnabled, DoAll, MaxSequence, NextAfter, Reclaim;
    var f := View(a.memory, start, slots);
    ReclaimStepsRun(f);
    SameActiveCounts(f, Reclaim(f));
    StepsRun(a.memory, start, slots, ReclaimSteps(f));
    var one := BootUp(run, f);
    longer := Finish(one, f, NextAfter(f), ReclaimSteps(f));
  }

  lemma FollowCutRecovery(start: nat, slots: nat, a: Machine, b: Machine, run: seq<World>) returns (longer: seq<World>)
    requires RecoveryIsCut(start, slots, a, b) && Matches(start, slots, a, run)
    ensures run <= longer && Matches(start, slots, b, longer)
  {
    hide AtRest, Under, Off, View, CutOps, LowerAll, ReclaimSteps, AllEnabled, Cut, MaxSequence, NextAfter;
    var f := View(a.memory, start, slots);
    ReclaimStepsRun(f);
    CutRefines(a.memory, start, slots, ReclaimSteps(f), b.memory);
    var one := BootUp(run, f);
    longer := CutOff(one, f, NextAfter(f), ReclaimSteps(f), View(b.memory, start, slots));
  }

  lemma FollowMove(start: nat, slots: nat, a: Machine, b: Machine, run: seq<World>) returns (longer: seq<World>)
    requires Moves(start, slots, a, b) && Matches(start, slots, a, run)
    ensures run <= longer && Matches(start, slots, b, longer)
  {
    hide Operates, IsCut, Fails, Recovers, RecoveryIsCut, Matches;
    if exists call :: Operates(start, slots, a, call, b) {
      var call :| Operates(start, slots, a, call, b);
      longer := FollowOperation(start, slots, a, call, b, run);
    } else if exists call :: IsCut(start, slots, a, call, b) {
      var call :| IsCut(start, slots, a, call, b);
      longer := FollowCut(start, slots, a, call, b, run);
    } else if exists call :: Fails(start, slots, a, call, b) {
      var call :| Fails(start, slots, a, call, b);
      longer := FollowFailure(start, slots, a, call, b, run);
    } else if Recovers(start, slots, a, b) {
      longer := FollowRecovery(start, slots, a, b, run);
    } else {
      longer := FollowCutRecovery(start, slots, a, b, run);
    }
  }

  // ----- whole lives

  /** `at[k]` is where the run has got when the memory is in its state number `k`. */
  ghost predicate Follows(start: nat, slots: nat, life: seq<Machine>, run: seq<World>, at: seq<nat>) {
    && IsRun(run) && |at| == |life|
    && (forall k :: 0 <= k < |life| ==> Fits(life[k].memory, start, slots) && at[k] < |run|)
    && (forall k :: 0 <= k < |life| ==> run[at[k]].slots == View(life[k].memory, start, slots))
    && (forall j, k :: 0 <= j < k < |life| ==> at[j] <= at[k])
  }

  lemma Extend(start: nat, slots: nat, life: seq<Machine>, run: seq<World>, at: seq<nat>, b: Machine, longer: seq<World>)
    requires Follows(start, slots, life, run, at) && run != [] && run <= longer && Matches(start, slots, b, longer)
    ensures longer != [] && Follows(start, slots, life + [b], longer, at + [|longer| - 1])
  {
    hide View, IsRun;
    var all, where := life + [b], at + [|longer| - 1];
    assert IsRun(longer) && longer[|longer| - 1].slots == View(b.memory, start, slots);
    forall k | 0 <= k < |all|
      ensures Fits(all[k].memory, start, slots) && where[k] < |longer|
              && longer[where[k]].slots == View(all[k].memory, start, slots)
    {
      if k < |life| {
        assert all[k] == life[k] && where[k] == at[k] && longer[at[k]] == run[at[k]];
      }
    }
  }

  lemma FirstMoment(start: nat, slots: nat, life: seq<Machine>) returns (run: seq<World>)
    requires IsLife(start, slots, life) && |life| == 1
    ensures run != [] && Follows(start, slots, life, run, [|run| - 1]) && Matches(start, slots, life[0], run)
  {
    run := PowerOn(slots / 16);
    hide View, IsRun;
  }

  lemma EarlierLife(start: nat, slots: nat, life: seq<Machine>)
    requires IsLife(start, slots, life) && |life| > 1
    ensures IsLife(start, slots, life[..|life| - 1])
    ensures Moves(start, slots, life[|life| - 2], life[|life| - 1])
  {
    hide Moves, View;
    assert Moves(start, slots, life[|life| - 2], life[|life| - 2 + 1]);
  }

  lemma FollowOn(start: nat, slots: nat, earlier: seq<Machine>, run: seq<World>, at: seq<nat>, a: Machine)
    returns (longer: seq<World>, places: seq<nat>)
    requires earlier != [] && run != [] && Follows(start, slots, earlier, run, at)
    requires Matches(start, slots, earlier[|earlier| - 1], run) && Moves(start, slots, earlier[|earlier| - 1], a)
    ensures longer != [] && Follows(start, slots, earlier + [a], longer, places) && Matches(start, slots, a, longer)
  {
    hide Follows, Matches, Moves;
    longer := FollowMove(start, slots, earlier[|earlier| - 1], a, run);
    Extend(start, slots, earlier, run, at, a, longer);
    places := at + [|longer| - 1];
  }

  /** Every life of the memory is a run of the step system, state by state. */
  lemma {:induction false} LifeIsRun(start: nat, slots: nat, life: seq<Machine>) returns (run: seq<World>, at: seq<nat>)
    requires IsLife(start, slots, life)
    ensures run != [] && Follows(start, slots, life, run, at)
    ensures Matches(start, slots, life[|life| - 1], run)
    decreases |life|
  {
    assert life != [];
    hide IsLife, Moves, Follows, Matches;
    var last := |life| - 1;
    if last == 0 {
      run := FirstMoment(start, slots, life);
      at := [|run| - 1];
    } else {
      var earlier := life[..last];
      EarlierLife(start, slots, life);
      var shorter, places := LifeIsRun(start, slots, earlier);
      assert earlier[last - 1] == life[last - 1] && earlier + [life[last]] == life;
      run, at := FollowOn(start, slots, earlier, shorter, places, life[last]);
    }
  }
}
