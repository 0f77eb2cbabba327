/** The power fails at any bit of any byte operation of a queue operation; what the next boot finds. */
module PowerLoss {
  import opened Types
  import opened NorFlash
  import opened Slots
  import opened Fifo
  import opened FlashSteps
  import opened QueueModel
  import opened CrashSafety
  import opened FlashImage

  lemma StepsEnabled(q: Queue, call: Call)
    requires Good(q)
    ensures AllEnabled(q.slots, StepsOf(q, call))
  {
    hide AllEnabled, Sound;
    match call
    case CallAppend(m) => AppendEnabled(q, m);
    case CallAcknowledge => AcknowledgeRuns(q);
    case CallRecover => ReclaimStepsRun(q.slots);
  }

  lemma WhateverTheBytes(memory: Memory, start: nat, slots: nat, q: Queue, call: Call, after: Memory)
    requires Fits(memory, start, slots) && View(memory, start, slots) == q.slots && Good(q)
    requires CutOps(memory, LowerAll(start, StepsOf(q, call)), after)
    ensures Fits(after, start, slots) && Cut(q.slots, StepsOf(q, call), View(after, start, slots))
  {
    hide Sound, MaxSequence, StepsOf, AllEnabled, Cut, View, LowerAll, CutOps;
    StepsEnabled(q, call);
    CutRefines(memory, start, slots, StepsOf(q, call), after);
  }

  /** Crash refinement down to the bits: no record that was committed and not retired is lost,
      reordered or altered, and no torn body ever becomes a record. */
  lemma PowerLossAnywhere(memory: Memory, start: nat, slots: nat, q: Queue, call: Call, after: Memory)
    requires Fits(memory, start, slots) && View(memory, start, slots) == q.slots
    requires Good(q) && q.next + 1 < TWO_TO_THE_64
    requires CutOps(memory, LowerAll(start, StepsOf(q, call)), after)
    ensures Fits(after, start, slots)
    ensures var found, before := Recover(View(after, start, slots)), Contents(q.slots);
            && Good(found) && found.depth == |Contents(found.slots)|
            && MaxSequence(q.slots) <= MaxSequence(found.slots) == found.next - 1
            && (Contents(found.slots) == before
                || Contents(found.slots) == Contents(After(q, call).slots)
                || (call.CallAppend? && q.depth == Capacity(q.slots) && before != [] && Contents(found.slots) == before[1..]))
  {
    hide View, CutOps, LowerAll, StepsOf, Cut, Contents, After, Recover, Sound;
    WhateverTheBytes(memory, start, slots, q, call, after);
    var g := View(after, start, slots);
    CrashRefinement(q, call, g);
    CutIsSound(q, call, g);
    RecoverEffect(g);
  }

  lemma CutIsSound(q: Queue, call: Call, g: Region)
    requires Good(q) && q.next + 1 < TWO_TO_THE_64 && Cut(q.slots, StepsOf(q, call), g)
    ensures Sound(g) && MaxSequence(g) + 1 < TWO_TO_THE_64
  {
    hide Sound, Cut, Contents;
    match call
    case CallAppend(m) => AppendCut(q, m, g);
    case CallAcknowledge => AcknowledgeCut(q, g);
    case CallRecover => ReclaimCut(q.slots, g);
  }

  /** Recovery itself may be cut at any bit, any number of times: the next one still ends with the
      same slots, depth and next sequence, whatever the memory held. */
  lemma InterruptedRecovery(memory: Memory, start: nat, slots: nat, after: Memory)
    requires Fits(memory, start, slots)
    requires CutOps(memory, LowerAll(start, ReclaimSteps(View(memory, start, slots))), after)
    ensures Fits(after, start, slots) && Recover(View(after, start, slots)) == Recover(View(memory, start, slots))
  {
    hide View, AllEnabled, Cut, LowerAll, CutOps, Recover, ReclaimSteps;
    var f := View(memory, start, slots);
    ReclaimStepsRun(f);
    CutRefines(memory, start, slots, ReclaimSteps(f), after);
    RecoveryIdempotent(f, View(after, start, slots));
  }

  /** And until then every byte operation was a proper one. */
  lemma EveryOperationProper(memory: Memory, start: nat, slots: nat, q: Queue, call: Call)
    requires Fits(memory, start, slots) && start % ERASE_SIZE == 0
    requires View(memory, start, slots) == q.slots && Good(q)
    ensures AllProper(memory, LowerAll(start, StepsOf(q, call)), start, start + 256 * slots)
  {
    hide Sound, MaxSequence, View, AllEnabled, AllProper, LowerAll, StepsOf;
    StepsEnabled(q, call);
    FlashDiscipline(memory, start, slots, StepsOf(q, call));
  }

  /** Completed, failed or cut at any bit, an operation leaves the rest of the flash alone. */
  lemma NothingOutside(memory: Memory, start: nat, slots: nat, q: Queue, call: Call, after: Memory)
    requires Fits(memory, start, slots) && start % ERASE_SIZE == 0
    requires View(memory, start, slots) == q.slots && Good(q)
    requires var ops := LowerAll(start, StepsOf(q, call)); CutOps(memory, ops, after) || after == ApplyAll(memory, ops)
    ensures SameOutside(memory, after, start, start + 256 * slots)
  {
    hide Sound, MaxSequence, View, AllProper, LowerAll, StepsOf, CutOps, ApplyAll, SameOutside;
    EveryOperationProper(memory, start, slots, q, call);
    CompletedIsCut(memory, LowerAll(start, StepsOf(q, call)));
    CutStaysInside(memory, LowerAll(start, StepsOf(q, call)), start, start + 256 * slots, after);
  }
}
