/** The flash operations the queue issues, what a power cut can make of them, and the queue
    operations as lists of them. */
module FlashSteps {
  import opened Types
  import opened Slots
  import opened Fifo

  /** One change of the region: a record put into an erased slot (its body, then its commit
      byte), an Active slot retired (one more state bit cleared), or a sector erased. */
  datatype Step = Put(slot: nat, record: Record) | Retire(slot: nat) | Erase(sector: nat)

  ghost function Do(f: Region, step: Step): (g: Region)
    ensures |g| == |f|
  {
    match step
    case Put(i, r) => if i < |f| then f[i := Active(StoredRecord(r))] else f
    case Retire(i) => if i < |f| && f[i].Active? then RetireAt(f, i) else f
    case Erase(s) => EraseSector(f, s)
  }

  ghost function DoAll(f: Region, steps: seq<Step>): (g: Region)
    ensures |g| == |f|
    decreases steps
  {
    if steps == [] then f else DoAll(Do(f, steps[0]), steps[1..])
  }

  /** An erase cut short leaves each slot of its sector unchanged, erased or undecodable. */
  predicate TornSlot(before: Slot, after: Slot) {
    after == before || after.Erased? || after.Corrupt? || after == Acknowledged(None)
  }

  /** What a step that was cut short may leave behind; a state byte changes in a single bit,
      so it either changed or did not. */
  ghost predicate Torn(f: Region, step: Step, g: Region) {
    |g| == |f| &&
    match step
    case Put(i, r) => g == f || (i < |f| && g == f[i := Corrupt]) || g == Do(f, step)
    case Retire(i) => g == f || g == Do(f, step)
    case Erase(s) =>
      forall i :: 0 <= i < |f| ==>
        if 16 * s <= i < 16 * s + 16 then TornSlot(f[i], g[i]) else g[i] == f[i]
  }

  /** The regions a power cut can leave anywhere in a list of steps. */
  ghost predicate Cut(f: Region, steps: seq<Step>, g: Region)
    decreases steps
  {
    g == f || (steps != [] && (Torn(f, steps[0], g) || Cut(Do(f, steps[0]), steps[1..], g)))
  }

  /** When a step is issued: a fresh sequence goes into the lowest erased slot, the oldest record
      is retired, a sector that holds nothing needed is erased. */
  ghost predicate Enabled(f: Region, step: Step) {
    match step
    case Put(i, r) => FirstErased(f) == Some(i) && MaxSequence(f) < r.sequence && ActiveCount(f) < Capacity(f)
    case Retire(i) => Oldest(f) == Some(i)
    case Erase(s) => s < Sectors(f) && Reclaimable(f, s)
  }

  ghost predicate AllEnabled(f: Region, steps: seq<Step>)
    decreases steps
  {
    steps == [] || (Enabled(f, steps[0]) && AllEnabled(Do(f, steps[0]), steps[1..]))
  }

  ghost predicate RetiredAreOlder(f: Region) {
    forall i, j :: 0 <= i < |f| && 0 <= j < |f| && f[i].Acknowledged? && f[i].Decodable() && f[j].Active? ==>
      f[i].Sequence() < f[j].Sequence()
  }

  /** Sequences are unique, retired records are older than waiting ones, and the waiting ones fit. */
  ghost predicate Sound(f: Region) {
    && Distinct(f)
    && RetiredAreOlder(f)
    && ActiveCount(f) <= Capacity(f)
  }

  // ----- lists of steps

  lemma DoNone(f: Region)
    ensures DoAll(f, []) == f
  {}

  lemma DoOne(f: Region, step: Step)
    ensures DoAll(f, [step]) == Do(f, step)
  {
    hide Do;
    assert DoAll(f, [step]) == DoAll(Do(f, step), [step][1..]);
  }

  lemma {:induction false} DoAllAppend(f: Region, a: seq<Step>, b: seq<Step>)
    ensures DoAll(f, a + b) == DoAll(DoAll(f, a), b)
    decreases a
  {
    if a == [] {
      assert a + b == b;
    } else {
      assert (a + b)[1..] == a[1..] + b;
      DoAllAppend(Do(f, a[0]), a[1..], b);
    }
  }

  lemma {:induction false} EnabledAppend(f: Region, a: seq<Step>, b: seq<Step>)
    requires AllEnabled(f, a) && AllEnabled(DoAll(f, a), b)
    ensures AllEnabled(f, a + b)
    decreases a
  {
    hide Enabled, Do;
    if a == [] {
      assert a + b == b;
    } else {
      assert (a + b)[1..] == a[1..] + b;
      EnabledAppend(Do(f, a[0]), a[1..], b);
    }
  }

  lemma {:induction false} CutAppend(f: Region, a: seq<Step>, b: seq<Step>, g: Region)
    ensures Cut(f, a + b, g) <==> Cut(f, a, g) || Cut(DoAll(f, a), b, g)
    decreases a
  {
    if a == [] {
      assert a + b == b;
    } else {
      assert (a + b)[1..] == a[1..] + b;
      CutAppend(Do(f, a[0]), a[1..], b, g);
    }
  }

  lemma CutAfter(f: Region, done: seq<Step>, rest: seq<Step>, g: Region)
    requires g == DoAll(f, done)
    ensures Cut(f, done + rest, g)
  {
    CutAppend(f, done, rest, g);
  }

  lemma TornAfter(f: Region, done: seq<Step>, step: Step, rest: seq<Step>, g: Region)
    requires Torn(DoAll(f, done), step, g)
    ensures Cut(f, done + ([step] + rest), g)
  {
    CutAppend(f, done, [step] + rest, g);
    assert ([step] + rest)[0] == step;
  }

  // ----- one step

  lemma FreshIsLargest(f: Region, sequence: u64)
    requires MaxSequence(f) < sequence
    ensures forall j :: 0 <= j < |f| && f[j].Decodable() ==> f[j].Sequence() < sequence
  {}

  lemma FreshKeepsOrder(f: Region, i: nat, slot: Slot)
    requires Distinct(f) && RetiredAreOlder(f) && i < |f| && slot.Active?
    requires forall j :: 0 <= j < |f| && f[j].Decodable() ==> f[j].Sequence() < slot.Sequence()
    ensures Distinct(f[i := slot]) && RetiredAreOlder(f[i := slot]) && Newest(f[i := slot]) == Some(i)
  {
    var g := f[i := slot];
    NewestIs(g, i);
    hide NewestBelow;
    assert RetiredAreOlder(g);
    hide RetiredAreOlder;
    forall j, k | 0 <= j < k < |g| && g[j].Decodable() && g[k].Decodable() ensures g[j].Sequence() != g[k].Sequence() {
      if j != i && k != i {
        DistinctAt(f, j, k);
      }
    }
  }

  lemma PutKeepsSound(f: Region, i: nat, r: Record)
    requires Sound(f) && Enabled(f, Put(i, r))
    ensures Sound(Do(f, Put(i, r))) && Newest(Do(f, Put(i, r))) == Some(i)
    ensures Contents(Do(f, Put(i, r))) == Contents(f) + [StoredRecord(r)]
    ensures MaxSequence(Do(f, Put(i, r))) == r.sequence
  {
    var slot := Active(StoredRecord(r));
    assert f[i].Erased?;
    FreshIsLargest(f, r.sequence);
    CountAfterUpdate(f, i, slot, |f|);
    PutEnqueues(f, i, StoredRecord(r));
    FreshKeepsOrder(f, i, slot);
    hide Contents, OldestBelow, ActiveBelow, NewestBelow, FirstErasedFrom, Distinct, RetiredAreOlder;
  }

  /** Nothing waiting changed, nothing became decodable, and the newest record is still there. */
  ghost predicate Loses(f: Region, g: Region) {
    SameActive(f, g)
    && (forall i :: 0 <= i < |f| && g[i].Decodable() ==> g[i] == f[i])
    && (Newest(f).Some? ==> g[Newest(f).value] == f[Newest(f).value])
  }

  lemma LosingKeepsNewest(f: Region, g: Region)
    requires Loses(f, g)
    ensures Newest(g) == Newest(f) && MaxSequence(g) == MaxSequence(f)
  {
    if Newest(f).Some? {
      NewestIs(g, Newest(f).value);
    }
  }

  lemma LosingKeepsSound(f: Region, g: Region)
    requires Sound(f) && Loses(f, g)
    ensures Sound(g)
    ensures Contents(g) == Contents(f) && ActiveCount(g) == ActiveCount(f)
  {
    OnlyActiveMatters(f, g);
    SameActiveCount(f, g, |f|);
    hide OldestBelow, NewestBelow, ActiveBelow, Contents;
    assert Distinct(g);
    hide Distinct;
    assert RetiredAreOlder(g);
    hide *;
  }

  /** Retiring the oldest changes no sequence, and it is the largest of the retired ones. */
  lemma SameSequences(f: Region, i: nat)
    requires Distinct(f) && RetiredAreOlder(f) && Oldest(f) == Some(i)
    ensures Newest(RetireAt(f, i)) == Newest(f) && MaxSequence(RetireAt(f, i)) == MaxSequence(f)
    ensures Distinct(RetireAt(f, i)) && RetiredAreOlder(RetireAt(f, i))
  {
    hide ActiveBelow, Contents;
    var g := RetireAt(f, i);
    OldestIsLeast(f, i);
    hide OldestBelow;
    assert forall j :: 0 <= j < |f| ==> g[j].Decodable() == f[j].Decodable();
    assert forall j :: 0 <= j < |f| && f[j].Decodable() ==> g[j].Sequence() == f[j].Sequence();
    NewestIs(g, Newest(f).value);
    hide NewestBelow;
    forall j, k | 0 <= j < k < |g| && g[j].Decodable() && g[k].Decodable() ensures g[j].Sequence() != g[k].Sequence() {
      DistinctAt(f, j, k);
    }
    hide Distinct;
    forall j, k | 0 <= j < |g| && 0 <= k < |g| && g[j].Acknowledged? && g[j].Decodable() && g[k].Active?
      ensures g[j].Sequence() < g[k].Sequence()
    {
      assert f[k] == g[k] && k != i;
      if j == i {
        DistinctAt(f, i, k);
      } else {
        assert f[j] == g[j];
      }
    }
  }

  lemma OldestIsLeast(f: Region, i: nat)
    requires Oldest(f) == Some(i)
    ensures i < |f| && f[i].Active?
    ensures forall j :: 0 <= j < |f| && f[j].Active? ==> f[i].Sequence() <= f[j].Sequence()
  {}

  lemma DistinctAt(f: Region, i: nat, k: nat)
    requires Distinct(f) && i < |f| && k < |f| && i != k && f[i].Decodable() && f[k].Decodable()
    ensures f[i].Sequence() != f[k].Sequence()
  {}

  lemma RetireKeepsSound(f: Region, i: nat)
    requires Sound(f) && Oldest(f) == Some(i)
    ensures Sound(RetireAt(f, i))
    ensures Newest(RetireAt(f, i)) == Newest(f) && MaxSequence(RetireAt(f, i)) == MaxSequence(f)
    ensures Contents(f) != [] && Contents(RetireAt(f, i)) == Contents(f)[1..]
  {
    var g := RetireAt(f, i);
    RetireDequeues(f);
    SameSequences(f, i);
    hide Contents, OldestBelow, ActiveBelow, NewestBelow, RetiredAreOlder, Distinct;
  }

  lemma ErasureLoses(f: Region, s: nat, g: Region)
    requires Enabled(f, Erase(s)) && Torn(f, Erase(s), g)
    ensures Loses(f, g)
  {
    forall i | 0 <= i < |f| && (f[i].Active? || g[i].Active?) ensures f[i] == g[i] {
      if 16 * s <= i < 16 * s + 16 {
        assert !f[i].Active?;
      }
    }
  }

  lemma CorruptLoses(f: Region, i: nat)
    requires i < |f| && f[i].Erased?
    ensures Loses(f, f[i := Corrupt])
  {}

  lemma EraseIsTorn(f: Region, s: nat)
    ensures Torn(f, Erase(s), Do(f, Erase(s)))
  {}

  /** Completing or cutting one enabled step: the region stays sound, the largest sequence never
      falls, and the contents gain one record at the back, lose one at the front, or stay. */
  lemma StepEffect(f: Region, step: Step, g: Region)
    requires Sound(f) && Enabled(f, step)
    requires g == Do(f, step) || Torn(f, step, g)
    ensures Sound(g) && MaxSequence(f) <= MaxSequence(g)
    ensures Contents(g) == Contents(f) || Contents(g) == Contents(Do(f, step))
    ensures step.Erase? ==> Contents(g) == Contents(f)
    ensures step.Retire? ==> Contents(f) != [] && Contents(Do(f, step)) == Contents(f)[1..]
    ensures step.Put? ==> Contents(Do(f, step)) == Contents(f) + [StoredRecord(step.record)]
    ensures !step.Put? ==> MaxSequence(g) == MaxSequence(f)
    ensures step.Put? ==> MaxSequence(g) <= step.record.sequence
  {
    hide Sound, Loses, Contents, OldestBelow, NewestBelow, ActiveBelow;
    match step
    case Put(i, r) =>
      PutKeepsSound(f, i, r);
      if g == f[i := Corrupt] {
        CorruptLoses(f, i);
        LosingKeepsSound(f, g);
        LosingKeepsNewest(f, g);
      }
    case Retire(i) =>
      RetireKeepsSound(f, i);
    case Erase(s) =>
      EraseIsTorn(f, s);
      ErasureLoses(f, s, Do(f, step));
      ErasureLoses(f, s, g);
      LosingKeepsSound(f, Do(f, step));
      LosingKeepsSound(f, g);
      LosingKeepsNewest(f, g);
  }
}
