/** Crash safety of the bytes over whole lives, told as one history: what was ever committed, and how
    much of it has left. */
module MemoryHistory {
  import opened Types
  import opened NorFlash
  import opened Slots
  import opened Fifo
  import opened FlashSteps
  import opened QueueModel
  import opened CrashSafety
  import opened PowerLoss
  import opened Wear
  import opened FlashImage
  import opened Delivery
  import opened MemoryRuns

  datatype History = History(committed: seq<Record>, gone: nat)

  ghost predicate Tells(f: Region, h: History) {
    Explains(f, h.committed, h.gone)
  }

  /** What a completed operation adds. */
  ghost function Effect(q: Queue, call: Call, h: History): History
    requires Consistent(q)
  {
    match call
    case CallAppend(m) =>
      var left := if q.depth == Capacity(q.slots) then h.(gone := h.gone + 1) else h;
      (match Append(q, m).1
       case Ok(record) => left.(committed := left.committed + [StoredRecord(record)])
       case Err(_) => left)
    case CallAcknowledge => if Acknowledge(q).1.Some? then h.(gone := h.gone + 1) else h
    case CallRecover => h
  }

  /** What one that was cut or failed may have added: nothing, everything, or only its eviction. */
  ghost predicate MayAdd(q: Queue, call: Call, h: History, k: History)
    requires Consistent(q)
  {
    || k == h || k == Effect(q, call, h)
    || (call.CallAppend? && q.depth == Capacity(q.slots) && k == h.(gone := h.gone + 1))
  }

  // ----- regions and histories

  lemma Kept(f: Region, g: Region, h: History)
    requires Tells(f, h) && Sound(g) && Contents(g) == Contents(f) && MaxSequence(f) <= MaxSequence(g)
    ensures Tells(g, h)
  {
    hide Sound, Contents, MaxSequence;
  }

  lemma HeadLeft(f: Region, g: Region, h: History)
    requires Tells(f, h) && Sound(g) && MaxSequence(f) <= MaxSequence(g)
    requires Contents(f) != [] && Contents(g) == Contents(f)[1..]
    ensures Tells(g, h.(gone := h.gone + 1))
  {
    hide Sound, Contents, MaxSequence;
    assert h.committed[h.gone..][1..] == h.committed[h.gone + 1..];
  }

  lemma WaitingIsBelow(f: Region, r: Record)
    requires r in Contents(f)
    ensures r.sequence <= MaxSequence(f)
  {
    ContentsAreActive(f, r);
    var i :| 0 <= i < |f| && f[i] == Active(r);
    hide Contents;
  }

  lemma Joined(f: Region, g: Region, h: History, r: Record)
    requires Tells(f, h) && Sound(g) && MaxSequence(f) < r.sequence && Contents(g) == Contents(f) + [r]
    ensures Tells(g, h.(committed := h.committed + [r]))
  {
    hide Sound, Contents, MaxSequence, AtMost, Ascending;
    assert r in Contents(g);
    WaitingIsBelow(g, r);
    AscendsWith(h.committed, r, MaxSequence(f));
    AtMostGrows(h.committed + [r], r.sequence, MaxSequence(g));
    DropAppend(h.committed, h.gone, r);
  }

  /** Wherever the contents are those after the operation, its whole effect belongs to the history. */
  lemma EffectTells(q: Queue, call: Call, h: History, g: Region)
    requires Good(q) && q.next + 1 < TWO_TO_THE_64 && Tells(q.slots, h)
    requires Sound(g) && Contents(g) == Contents(After(q, call).slots) && MaxSequence(q.slots) <= MaxSequence(g)
    ensures Tells(g, Effect(q, call, h))
  {
    hide Tells, Sound, Contents, MaxSequence, Append, Acknowledge, Reclaim, Evict, ActiveCount;
    match call
    case CallAppend(m) =>
      AppendEffect(q, m);
      EvictEffect(q);
      var e := Evict(q).slots;
      var left := if q.depth == Capacity(q.slots) then h.(gone := h.gone + 1) else h;
      if q.depth == Capacity(q.slots) {
        HeadLeft(q.slots, e, h);
      } else {
        Kept(q.slots, e, h);
      }
      match Append(q, m).1 {
        case Ok(record) => Joined(e, g, left, StoredRecord(record));
        case Err(_) => Kept(e, g, left);
      }
    case CallAcknowledge =>
      AcknowledgeEffect(q);
      if Acknowledge(q).1.Some? {
        HeadLeft(q.slots, g, h);
      } else {
        Kept(q.slots, g, h);
      }
    case CallRecover =>
      ReclaimEffect(q.slots);
      Kept(q.slots, g, h);
  }

  lemma CutTells(q: Queue, call: Call, h: History, g: Region) returns (k: History)
    requires Good(q) && q.next + 1 < TWO_TO_THE_64 && Tells(q.slots, h)
    requires Cut(q.slots, StepsOf(q, call), g)
    ensures MayAdd(q, call, h, k) && Tells(g, k)
  {
    hide Tells, Sound, Contents, MaxSequence, After, Cut, StepsOf, Effect, Recover;
    CrashRefinement(q, call, g);
    CutIsSound(q, call, g);
    RecoverEffect(g);
    if Contents(g) == Contents(q.slots) {
      k := h;
      Kept(q.slots, g, h);
    } else if Contents(g) == Contents(After(q, call).slots) {
      k := Effect(q, call, h);
      EffectTells(q, call, h, g);
    } else {
      k := h.(gone := h.gone + 1);
      HeadLeft(q.slots, g, h);
    }
  }

  // ----- one move

  /** The history is of what the memory holds, and the queue in RAM is a good one. */
  ghost predicate TellsOf(start: nat, slots: nat, a: Machine, h: History) {
    && Fits(a.memory, start, slots) && Tells(View(a.memory, start, slots), h)
    && (a.queue.Some? ==> Good(a.queue.value) && a.queue.value.slots == View(a.memory, start, slots))
  }

  /** A move adds to the history exactly what it did. */
  ghost predicate Adds(start: nat, slots: nat, a: Machine, b: Machine, h: History, k: History) {
    || (exists call :: Operates(start, slots, a, call, b) && k == Effect(a.queue.value, call, h))
    || (exists call :: (IsCut(start, slots, a, call, b) || Fails(start, slots, a, call, b))
                       && MayAdd(a.queue.value, call, h, k))
    || ((Recovers(start, slots, a, b) || RecoveryIsCut(start, slots, a, b)) && k == h)
  }

  lemma OperationTells(start: nat, slots: nat, a: Machine, call: Call, b: Machine, h: History) returns (k: History)
    requires Operates(start, slots, a, call, b) && TellsOf(start, slots, a, h)
    ensures k == Effect(a.queue.value, call, h) && TellsOf(start, slots, b, k)
  {
    var q := a.queue.value;
    k := Effect(q, call, h);
    hide Tells, Sound, Contents, MaxSequence, After, StepsOf, Effect, View, ApplyAll, LowerAll, AllEnabled, DoAll;
    StepsEnabled(q, call);
    StepsRun(a.memory, start, slots, StepsOf(q, call));
    AfterIsGood(q, call);
    EffectTells(q, call, h, After(q, call).slots);
  }

  lemma AfterIsGood(q: Queue, call: Call)
    requires Good(q) && q.next + 1 < TWO_TO_THE_64 && !call.CallRecover?
    ensures Good(After(q, call)) && MaxSequence(q.slots) <= MaxSequence(After(q, call).slots)
    ensures DoAll(q.slots, StepsOf(q, call)) == After(q, call).slots
  {
    hide Sound, MaxSequence, Append, AppendSteps, Acknowledge, AcknowledgeSteps, Contents, Evict, DoAll;
    match call
    case CallAppend(m) =>
      AppendEffect(q, m);
      EvictEffect(q);
      AppendRuns(q, m);
    case CallAcknowledge =>
      AcknowledgeEffect(q);
      AcknowledgeRuns(q);
  }

  lemma InterruptionTells(start: nat, slots: nat, a: Machine, call: Call, b: Machine, h: History) returns (k: History)
    requires IsCut(start, slots, a, call, b) || Fails(start, slots, a, call, b)
    requires TellsOf(start, slots, a, h)
    ensures MayAdd(a.queue.value, call, h, k) && TellsOf(start, slots, b, k)
  {
    var q := a.queue.value;
    hide Tells, Sound, Contents, MaxSequence, After, StepsOf, MayAdd, View, CutOps, LowerAll, Cut;
    WhateverTheBytes(a.memory, start, slots, q, call, b.memory);
    k := CutTells(q, call, h, View(b.memory, start, slots));
    assert Sound(View(b.memory, start, slots)) by {
      CutIsSound(q, call, View(b.memory, start, slots));
    }
  }

  lemma RecoveryTells(start: nat, slots: nat, a: Machine, b: Machine, h: History)
    requires Recovers(start, slots, a, b) && TellsOf(start, slots, a, h)
    ensures TellsOf(start, slots, b, h)
  {
    var f := View(a.memory, start, slots);
    assert Sound(f);
    hide Tells, Sound, Contents, MaxSequence, ReclaimSteps, Reclaim, View, ApplyAll, LowerAll, AllEnabled, DoAll;
    ReclaimStepsRun(f);
    StepsRun(a.memory, start, slots, ReclaimSteps(f));
    ReclaimEffect(f);
    RecoverEffect(f);
    Kept(f, Reclaim(f), h);
  }

  lemma CutRecoveryTells(start: nat, slots: nat, a: Machine, b: Machine, h: History)
    requires RecoveryIsCut(start, slots, a, b) && TellsOf(start, slots, a, h)
    ensures TellsOf(start, slots, b, h)
  {
    var f := View(a.memory, start, slots);
    assert Sound(f);
    hide Tells, Sound, Contents, MaxSequence, ReclaimSteps, View, CutOps, LowerAll, AllEnabled, Cut;
    ReclaimStepsRun(f);
    CutRefines(a.memory, start, slots, ReclaimSteps(f), b.memory);
    var g := View(b.memory, start, slots);
    ReclaimCut(f, g);
    Kept(f, g, h);
  }

  lemma MoveAdds(start: nat, slots: nat, a: Machine, b: Machine, h: History) returns (k: History)
    requires Moves(start, slots, a, b) && TellsOf(start, slots, a, h)
    ensures Adds(start, slots, a, b, h, k) && TellsOf(start, slots, b, k)
  {
    hide Operates, IsCut, Fails, Recovers, RecoveryIsCut, TellsOf, Effect, MayAdd;
    if exists call :: Operates(start, slots, a, call, b) {
      var call :| Operates(start, slots, a, call, b);
      k := OperationTells(start, slots, a, call, b, h);
    } else if exists call :: IsCut(start, slots, a, call, b) || Fails(start, slots, a, call, b) {
      var call :| IsCut(start, slots, a, call, b) || Fails(start, slots, a, call, b);
      k := InterruptionTells(start, slots, a, call, b, h);
    } else {
      k := h;
      if Recovers(start, slots, a, b) {
        RecoveryTells(start, slots, a, b, h);
      } else {
        CutRecoveryTells(start, slots, a, b, h);
      }
    }
  }

  // ----- whole lives

  /** The history begins empty, every move adds to it exactly what it did, and at every moment the
      memory holds, unaltered and in order, what was committed and has not left. */
  ghost predicate Told(start: nat, slots: nat, life: seq<Machine>, told: seq<History>) {
    && |told| == |life| > 0 && told[0] == History([], 0)
    && (forall k :: 0 <= k < |life| ==> TellsOf(start, slots, life[k], told[k]))
    && (forall k :: 0 <= k < |life| - 1 ==> Adds(start, slots, life[k], life[k + 1], told[k], told[k + 1]))
  }

  lemma ToldOn(start: nat, slots: nat, life: seq<Machine>, told: seq<History>, b: Machine, k: History)
    requires Told(start, slots, life, told) && TellsOf(start, slots, b, k)
    requires Adds(start, slots, life[|life| - 1], b, told[|told| - 1], k)
    ensures Told(start, slots, life + [b], told + [k])
  {
    hide Adds, TellsOf;
    var all, tale, last := life + [b], told + [k], |life| - 1;
    forall j | 0 <= j < |all| - 1
      ensures Adds(start, slots, all[j], all[j + 1], tale[j], tale[j + 1])
    {
      if j < last {
        assert all[j] == life[j] && all[j + 1] == life[j + 1] && tale[j] == told[j] && tale[j + 1] == told[j + 1];
      }
    }
  }

  lemma BeginsEmpty(start: nat, slots: nat, life: seq<Machine>)
    requires IsLife(start, slots, life) && |life| == 1
    ensures Told(start, slots, life, [History([], 0)])
  {
    hide View;
    BlankIsGood(slots / 16);
    assert Newest(Blank(slots / 16)) == None;
  }

  lemma ToldFurther(start: nat, slots: nat, earlier: seq<Machine>, a: Machine, told: seq<History>) returns (longer: seq<History>)
    requires Told(start, slots, earlier, told) && Moves(start, slots, earlier[|earlier| - 1], a)
    ensures Told(start, slots, earlier + [a], longer)
  {
    hide Moves, Adds, TellsOf;
    var last := |earlier| - 1;
    assert TellsOf(start, slots, earlier[last], told[last]);
    var k := MoveAdds(start, slots, earlier[last], a, told[last]);
    ToldOn(start, slots, earlier, told, a, k);
    longer := told + [k];
  }

  /** Every life has one history. */
  lemma {:induction false} MemoryNeverLoses(start: nat, slots: nat, life: seq<Machine>) returns (told: seq<History>)
    requires IsLife(start, slots, life)
    ensures Told(start, slots, life, told)
    decreases |life|
  {
    assert life != [];
    hide IsLife, Moves, Told, Adds, TellsOf;
    var last := |life| - 1;
    if last == 0 {
      BeginsEmpty(start, slots, life);
      told := [History([], 0)];
    } else {
      EarlierLife(start, slots, life);
      var earlier := MemoryNeverLoses(start, slots, life[..last]);
      assert life[..last][last - 1] == life[last - 1] && life[..last] + [life[last]] == life;
      told := ToldFurther(start, slots, life[..last], life[last], earlier);
    }
  }

  /** Whatever a life has come to, a recovery finds exactly what the history says is waiting. */
  lemma RecoveryFindsTheRest(start: nat, slots: nat, a: Machine, h: History)
    requires TellsOf(start, slots, a, h)
    ensures Contents(Recover(View(a.memory, start, slots)).slots) == h.committed[h.gone..]
    ensures Ascending(h.committed)
  {
    hide View, Contents, Sound, MaxSequence;
    ReclaimEffect(View(a.memory, start, slots));
  }
}
