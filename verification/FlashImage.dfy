/** The region of slots that a stretch of flash memory stands for, and the proof that the byte
    operations, completed or cut short, do to it what the slot steps say. */
module FlashImage {
  import opened Bytes
  import opened RecordCodec
  import opened NorFlash
  import opened Slots
  import opened FlashSteps
  import opened Types

  predicate Fits(memory: Memory, start: nat, slots: nat) {
    start + 256 * slots <= |memory| && slots >= 32 && slots % 16 == 0
  }

  function Page(memory: Memory, start: nat, slot: nat): Image
    requires start + 256 * slot + 256 <= |memory|
  {
    PageAt(memory, start + 256 * slot)
  }

  function View(memory: Memory, start: nat, slots: nat): (f: Region)
    requires Fits(memory, start, slots)
    ensures |f| == slots
  {
    seq(slots, i requires 0 <= i < slots && Fits(memory, start, slots) => ReadsAs(Page(memory, start, i)))
  }

  /** The record as it is first written, with the state byte still erased. */
  function Body(r: Record): Image {
    Encode(r)[0 := ERASED]
  }

  function Lower(start: nat, step: Step): seq<FlashOp> {
    match step
    case Put(i, r) => [Program(start + 256 * i, Body(r)), Program(start + 256 * i, [COMMITTED])]
    case Retire(i) => [Program(start + 256 * i, [ACKNOWLEDGED])]
    case Erase(s) => [EraseRange(start + 4096 * s, start + 4096 * s + 4096)]
  }

  function LowerAll(start: nat, steps: seq<Step>): seq<FlashOp> {
    if steps == [] then [] else Lower(start, steps[0]) + LowerAll(start, steps[1..])
  }

  lemma {:induction false} LowerAppend(start: nat, a: seq<Step>, b: seq<Step>)
    ensures LowerAll(start, a + b) == LowerAll(start, a) + LowerAll(start, b)
  {
    if a == [] {
      assert a + b == b;
    } else {
      assert (a + b)[1..] == a[1..] + b;
      LowerAppend(start, a[1..], b);
    }
  }

  /** Exactly the byte operations of these steps lead from one trace to the other. */
  ghost predicate IssuedSteps(start: nat, a: Trace, steps: seq<Step>, b: Trace) {
    Issued(a, LowerAll(start, steps), b)
  }

  lemma IssuedNoSteps(start: nat, a: Trace)
    ensures IssuedSteps(start, a, [], a)
  {}

  lemma LowerOne(start: nat, step: Step)
    ensures LowerAll(start, [step]) == Lower(start, step)
  {
    assert [step][1..] == [];
    assert LowerAll(start, [step]) == Lower(start, step) + [] == Lower(start, step);
  }

  lemma IssuedStep(start: nat, a: Trace, step: Step, b: Trace)
    requires Issued(a, Lower(start, step), b)
    ensures IssuedSteps(start, a, [step], b)
  {
    hide Issued, Lower, LowerAll;
    LowerOne(start, step);
  }

  lemma IssuedStepsThen(start: nat, a: Trace, x: seq<Step>, b: Trace, y: seq<Step>, c: Trace)
    requires IssuedSteps(start, a, x, b) && IssuedSteps(start, b, y, c)
    ensures IssuedSteps(start, a, x + y, c)
  {
    hide Issued;
    LowerAppend(start, x, y);
    IssuedThen(a, LowerAll(start, x), b, LowerAll(start, y), c);
  }

  /** A cut of the byte operations of these steps leads from one trace to the other. */
  ghost predicate CutShort(start: nat, a: Trace, steps: seq<Step>, b: Trace) {
    CutOps(a.memory, LowerAll(start, steps), b.memory)
  }

  lemma CutShortNone(start: nat, a: Trace, steps: seq<Step>, b: Trace)
    requires a.memory == b.memory
    ensures CutShort(start, a, steps, b)
  {
    hide LowerAll;
  }

  lemma CutShortStep(start: nat, a: Trace, step: Step, b: Trace)
    requires CutOps(a.memory, Lower(start, step), b.memory)
    ensures CutShort(start, a, [step], b)
  {
    hide CutOps, Lower, LowerAll;
    LowerOne(start, step);
  }

  lemma CutShortBefore(start: nat, a: Trace, x: seq<Step>, y: seq<Step>, b: Trace)
    requires CutShort(start, a, x, b)
    ensures CutShort(start, a, x + y, b)
  {
    hide CutOps;
    LowerAppend(start, x, y);
    CutOpsShort(a.memory, LowerAll(start, x), LowerAll(start, y), b.memory);
  }

  lemma CutShortAfter(start: nat, a: Trace, x: seq<Step>, b: Trace, y: seq<Step>, c: Trace)
    requires IssuedSteps(start, a, x, b) && CutShort(start, b, y, c)
    ensures CutShort(start, a, x + y, c)
  {
    hide CutOps, ApplyAll;
    LowerAppend(start, x, y);
    CutOpsLater(a.memory, LowerAll(start, x), LowerAll(start, y), c.memory);
  }

  // ----- one page

  function Overlay(page: Image, data: seq<Byte>): Image {
    seq(256, k requires 0 <= k < 256 => if k < |data| then Programmed(page[k], data[k]) else page[k])
  }

  ghost predicate TornOverlay(page: Image, data: seq<Byte>, after: Image) {
    forall k :: 0 <= k < 256 ==> if k < |data| then TornByte(page[k], data[k], after[k]) else after[k] == page[k]
  }

  lemma AndOnes(b: Byte)
    ensures 0xff & b == b && 0xff | b == 0xff
  {}

  lemma OneBitOrNone(t: Byte)
    ensures TornByte(ERASED, COMMITTED, t) ==> t == ERASED || t == COMMITTED
    ensures TornByte(COMMITTED, ACKNOWLEDGED, t) ==> t == COMMITTED || t == ACKNOWLEDGED
    ensures TornByte(ERASED, ERASED, t) ==> t == ERASED
    ensures ERASED & COMMITTED == COMMITTED && COMMITTED & ACKNOWLEDGED == ACKNOWLEDGED
    ensures ERASED | COMMITTED == ERASED && COMMITTED | ACKNOWLEDGED == COMMITTED
  {}

  lemma BodyReadsCorrupt(r: Record)
    ensures ReadsAs(Body(r)) == Corrupt && Body(r)[0] == ERASED
  {
    assert Encode(r)[1] == Checked(r)[0] == RECORD_VERSION;
    assert Body(r)[1] != ERASED;
    hide Encode, Decode;
  }

  lemma BodyOverBlank(page: Image, r: Record)
    requires ReadsAs(page) == Erased
    ensures Overlay(page, Body(r)) == Body(r)
  {
    hide Encode, Decode;
    forall k | 0 <= k < 256 ensures Overlay(page, Body(r))[k] == Body(r)[k] {
      assert page[k] == ERASED;
      AndOnes(Body(r)[k]);
    }
  }

  /** A torn body leaves the state byte erased, so it never reads as a record. */
  lemma TornBody(page: Image, r: Record, after: Image)
    requires ReadsAs(page) == Erased && TornOverlay(page, Body(r), after)
    ensures ReadsAs(after) == Erased || ReadsAs(after) == Corrupt
  {
    BodyReadsCorrupt(r);
    assert page[0] == ERASED;
    OneBitOrNone(after[0]);
    hide Encode, Decode, TornByte, Body;
  }

  lemma CommitOverBody(r: Record)
    ensures Overlay(Body(r), [COMMITTED]) == Encode(r)
    ensures ReadsAs(Encode(r)) == Active(StoredRecord(r))
  {
    DecodeEncode(r);
    OneBitOrNone(0);
    StateOfEncoded(r);
    hide Encode, Decode;
    assert ReadsAs(Encode(r)) == Active(StoredRecord(r)) by {
      assert Encode(r)[0] != ERASED;
    }
    hide ReadsAs;
  }

  lemma StateOfEncoded(r: Record)
    ensures Encode(r)[0] == COMMITTED
  {
    hide Checked;
  }

  lemma TornCommit(r: Record, after: Image)
    requires TornOverlay(Body(r), [COMMITTED], after)
    ensures after == Body(r) || after == Encode(r)
  {
    OneBitOrNone(after[0]);
    assert Encode(r)[0] == COMMITTED;
    hide Encode, TornByte;
    assert TornByte(Body(r)[0], COMMITTED, after[0]);
    assert forall k :: 1 <= k < 256 ==> after[k] == Encode(r)[k];
  }

  lemma RetireOverActive(page: Image)
    requires ReadsAs(page).Active?
    ensures ReadsAs(Overlay(page, [ACKNOWLEDGED])) == Acknowledged(Some(ReadsAs(page).record))
    ensures Overlay(page, [ACKNOWLEDGED])[0] == ACKNOWLEDGED
  {
    OneBitOrNone(0);
    hide Decode;
    var after := Overlay(page, [ACKNOWLEDGED]);
    assert after[1..] == page[1..];
    SameBeyondState(after, page);
    assert after[0] == ACKNOWLEDGED;
  }

  lemma TornRetire(page: Image, after: Image)
    requires ReadsAs(page).Active? && TornOverlay(page, [ACKNOWLEDGED], after)
    ensures after == page || after == Overlay(page, [ACKNOWLEDGED])
  {
    RetireOverActive(page);
    ActiveIsCommitted(page);
    hide ReadsAs, TornByte;
    assert TornByte(page[0], ACKNOWLEDGED, after[0]);
    OneBitOrNone(after[0]);
    SameButState(after, page);
    SameButState(after, Overlay(page, [ACKNOWLEDGED]));
  }

  lemma ActiveIsCommitted(page: Image)
    requires ReadsAs(page).Active?
    ensures page[0] == COMMITTED
  {
    hide Decode;
  }

  lemma SameButState(a: Image, b: Image)
    requires forall k :: 1 <= k < 256 ==> a[k] == b[k]
    ensures a[0] == b[0] ==> a == b
  {}

  // ----- the page an operation touches, and all the others

  lemma ProgramsOnePage(memory: Memory, start: nat, slots: nat, i: nat, data: seq<Byte>)
    requires Fits(memory, start, slots) && i < slots && |data| <= 256
    ensures var after := Apply(memory, Program(start + 256 * i, data));
            Page(after, start, i) == Overlay(Page(memory, start, i), data)
            && (forall j :: 0 <= j < slots && j != i ==> Page(after, start, j) == Page(memory, start, j))
            && View(after, start, slots) == View(memory, start, slots)[i := ReadsAs(Page(after, start, i))]
  {
    hide ReadsAs, Programmed;
    var after := Apply(memory, Program(start + 256 * i, data));
    assert forall k :: 0 <= k < 256 ==> Page(after, start, i)[k] == after[start + 256 * i + k];
    assert Page(after, start, i) == Overlay(Page(memory, start, i), data);
    OtherPages(memory, start, slots, i, after);
  }

  /** A change inside one slot is a change of that slot. */
  lemma OtherPages(memory: Memory, start: nat, slots: nat, i: nat, after: Memory)
    requires Fits(memory, start, slots) && |after| == |memory| && i < slots
    requires forall k :: 0 <= k < |memory| && !(start + 256 * i <= k < start + 256 * i + 256) ==> after[k] == memory[k]
    ensures forall j :: 0 <= j < slots && j != i ==> Page(after, start, j) == Page(memory, start, j)
    ensures View(after, start, slots) == View(memory, start, slots)[i := ReadsAs(Page(after, start, i))]
  {
    hide ReadsAs;
    forall j | 0 <= j < slots && j != i ensures Page(after, start, j) == Page(memory, start, j) {
      assert j < i || j > i;
    }
    hide Page;
    var f, g := View(memory, start, slots), View(after, start, slots);
    assert forall j :: 0 <= j < slots && j != i ==> g[j] == f[j];
  }

  lemma TearsOnePage(memory: Memory, start: nat, slots: nat, i: nat, data: seq<Byte>, after: Memory)
    requires Fits(memory, start, slots) && i < slots && |data| <= 256
    requires TornOp(memory, Program(start + 256 * i, data), after)
    ensures TornOverlay(Page(memory, start, i), data, Page(after, start, i))
    ensures View(after, start, slots) == View(memory, start, slots)[i := ReadsAs(Page(after, start, i))]
    ensures forall j :: 0 <= j < slots && j != i ==> Page(after, start, j) == Page(memory, start, j)
  {
    hide ReadsAs, TornByte;
    OtherPages(memory, start, slots, i, after);
  }

  lemma ErasesOneSector(memory: Memory, start: nat, slots: nat, s: nat)
    requires Fits(memory, start, slots) && 16 * s + 16 <= slots
    ensures View(Apply(memory, EraseRange(start + 4096 * s, start + 4096 * s + 4096)), start, slots)
            == EraseSector(View(memory, start, slots), s)
  {
    var after := Apply(memory, EraseRange(start + 4096 * s, start + 4096 * s + 4096));
    var f, g := View(memory, start, slots), View(after, start, slots);
    hide ReadsAs, Apply, PageAt;
    forall j | 0 <= j < slots ensures g[j] == EraseSector(f, s)[j] {
      PageAfterErase(memory, start, slots, s, j);
    }
  }

  lemma PageAfterErase(memory: Memory, start: nat, slots: nat, s: nat, j: nat)
    requires Fits(memory, start, slots) && 16 * s + 16 <= slots && j < slots
    ensures var after := Apply(memory, EraseRange(start + 4096 * s, start + 4096 * s + 4096));
            if 16 * s <= j < 16 * s + 16 then ReadsAs(Page(after, start, j)) == Erased
            else Page(after, start, j) == Page(memory, start, j)
  {
    hide Decode;
    var after := Apply(memory, EraseRange(start + 4096 * s, start + 4096 * s + 4096));
    if 16 * s <= j < 16 * s + 16 {
      assert forall k :: 0 <= k < 256 ==> Page(after, start, j)[k] == ERASED;
    } else {
      hide ReadsAs;
      assert Page(after, start, j) == Page(memory, start, j);
    }
  }

  lemma TearsOneSector(memory: Memory, start: nat, slots: nat, s: nat, after: Memory)
    requires Fits(memory, start, slots) && 16 * s + 16 <= slots
    requires TornOp(memory, EraseRange(start + 4096 * s, start + 4096 * s + 4096), after)
    ensures Torn(View(memory, start, slots), Erase(s), View(after, start, slots))
  {
    hide ReadsAs;
    var f, g := View(memory, start, slots), View(after, start, slots);
    forall j | 0 <= j < slots
      ensures if 16 * s <= j < 16 * s + 16 then TornSlot(f[j], g[j]) else g[j] == f[j]
    {
      if 16 * s <= j < 16 * s + 16 {
        var k: nat := j - 16 * s;
        assert start + 256 * j == start + 4096 * s + 256 * k;
        assert TornPage(PageAt(memory, start + 4096 * s + 256 * k), PageAt(after, start + 4096 * s + 256 * k));
      } else {
        assert Page(after, start, j) == Page(memory, start, j);
      }
    }
  }

  // ----- one step

  lemma BodyWrites(memory: Memory, start: nat, slots: nat, i: nat, r: Record)
    requires Fits(memory, start, slots) && i < slots && View(memory, start, slots)[i] == Erased
    ensures var between := Apply(memory, Program(start + 256 * i, Body(r)));
            Page(between, start, i) == Body(r)
            && View(between, start, slots) == View(memory, start, slots)[i := Corrupt]
  {
    hide ReadsAs, Encode, Overlay, Apply;
    ProgramsOnePage(memory, start, slots, i, Body(r));
    BodyOverBlank(Page(memory, start, i), r);
    BodyReadsCorrupt(r);
  }

  lemma PutWrites(memory: Memory, start: nat, slots: nat, i: nat, r: Record)
    requires Fits(memory, start, slots) && i < slots && View(memory, start, slots)[i] == Erased
    ensures View(ApplyAll(memory, Lower(start, Put(i, r))), start, slots)
            == View(memory, start, slots)[i := Active(StoredRecord(r))]
  {
    hide ReadsAs, Encode, Overlay, Apply, Body;
    var body, commit := Program(start + 256 * i, Body(r)), Program(start + 256 * i, [COMMITTED]);
    BodyWrites(memory, start, slots, i, r);
    var between := Apply(memory, body);
    ProgramsOnePage(between, start, slots, i, [COMMITTED]);
    CommitOverBody(r);
    assert ApplyAll(memory, [body, commit]) == ApplyAll(between, [body, commit][1..]) == Apply(between, commit);
  }

  lemma RetireWrites(memory: Memory, start: nat, slots: nat, i: nat)
    requires Fits(memory, start, slots) && i < slots && View(memory, start, slots)[i].Active?
    ensures View(Apply(memory, Program(start + 256 * i, [ACKNOWLEDGED])), start, slots)
            == View(memory, start, slots)[i := Acknowledged(Some(View(memory, start, slots)[i].record))]
  {
    hide ReadsAs, Overlay, Apply;
    ProgramsOnePage(memory, start, slots, i, [ACKNOWLEDGED]);
    RetireOverActive(Page(memory, start, i));
  }

  /** The byte operations of a step, run to the end, do what the step does. */
  lemma StepRuns(memory: Memory, start: nat, slots: nat, step: Step)
    requires Fits(memory, start, slots) && Enabled(View(memory, start, slots), step)
    ensures View(ApplyAll(memory, Lower(start, step)), start, slots) == Do(View(memory, start, slots), step)
  {
    hide View, Apply, ApplyAll, EraseSector, Reclaimable, ActiveCount, MaxSequence;
    match step
    case Put(i, r) =>
      PutWrites(memory, start, slots, i, r);
    case Retire(i) =>
      assert Oldest(View(memory, start, slots)) == Some(i);
      ApplyOne(memory, Program(start + 256 * i, [ACKNOWLEDGED]));
      RetireWrites(memory, start, slots, i);
    case Erase(s) =>
      ApplyOne(memory, EraseRange(start + 4096 * s, start + 4096 * s + 4096));
      ErasesOneSector(memory, start, slots, s);
  }

  lemma TornMayDoNothing(f: Region, step: Step)
    ensures Torn(f, step, f)
  {}

  lemma TornBodyView(memory: Memory, start: nat, slots: nat, i: nat, r: Record, after: Memory)
    requires Fits(memory, start, slots) && i < slots && View(memory, start, slots)[i] == Erased
    requires TornOp(memory, Program(start + 256 * i, Body(r)), after)
    ensures Fits(after, start, slots)
    ensures View(after, start, slots) == View(memory, start, slots)
            || View(after, start, slots) == View(memory, start, slots)[i := Corrupt]
  {
    hide ReadsAs, Encode, Body;
    TearsOnePage(memory, start, slots, i, Body(r), after);
    TornBody(Page(memory, start, i), r, Page(after, start, i));
  }

  lemma OneOpCut(memory: Memory, op: FlashOp, rest: seq<FlashOp>, after: Memory)
    requires CutOps(memory, [op] + rest, after)
    ensures after == memory || TornOp(memory, op, after) || CutOps(ApplyAll(memory, [op]), rest, after)
  {
    hide TornOp, Apply;
    assert ([op] + rest)[1..] == rest;
    assert ApplyAll(memory, [op]) == ApplyAll(Apply(memory, op), [op][1..]) == Apply(memory, op);
  }

  lemma BodyCut(memory: Memory, start: nat, slots: nat, i: nat, r: Record, after: Memory)
    requires Fits(memory, start, slots) && |after| == |memory| && i < slots
    requires View(memory, start, slots)[i] == Erased
    requires TornOp(memory, Program(start + 256 * i, Body(r)), after)
    ensures Torn(View(memory, start, slots), Put(i, r), View(after, start, slots))
  {
    hide View, TornOp, Body;
    TornBodyView(memory, start, slots, i, r, after);
  }

  lemma CommitCut(memory: Memory, start: nat, slots: nat, i: nat, r: Record, after: Memory)
    requires Fits(memory, start, slots) && |after| == |memory| && i < slots
    requires View(memory, start, slots)[i] == Erased
    requires var between := Apply(memory, Program(start + 256 * i, Body(r)));
             after == between || TornOp(between, Program(start + 256 * i, [COMMITTED]), after)
    ensures Torn(View(memory, start, slots), Put(i, r), View(after, start, slots))
  {
    hide View, ReadsAs, Encode, TornOp, Apply, Body, TornOverlay, PageAt;
    var f, between := View(memory, start, slots), Apply(memory, Program(start + 256 * i, Body(r)));
    BodyWrites(memory, start, slots, i, r);
    if after != between {
      TearsOnePage(between, start, slots, i, [COMMITTED], after);
      TornCommit(r, Page(after, start, i));
      BodyReadsCorrupt(r);
      CommitOverBody(r);
      assert f[i := Corrupt][i := Corrupt] == f[i := Corrupt];
      assert f[i := Corrupt][i := Active(StoredRecord(r))] == f[i := Active(StoredRecord(r))];
    }
  }

  lemma TwoOpsCut(memory: Memory, a: FlashOp, b: FlashOp, rest: seq<FlashOp>, after: Memory)
    requires CutOps(memory, [a, b] + rest, after)
    ensures after == memory || TornOp(memory, a, after) || after == Apply(memory, a)
            || TornOp(Apply(memory, a), b, after) || CutOps(ApplyAll(memory, [a, b]), rest, after)
  {
    hide TornOp, Apply, ApplyAll;
    assert ([a, b] + rest)[1..] == [b] + rest;
    assert ([b] + rest)[1..] == rest;
    ApplyTwo(memory, a, b);
  }

  lemma PutCuts(memory: Memory, start: nat, slots: nat, i: nat, r: Record, rest: seq<FlashOp>, after: Memory)
    requires Fits(memory, start, slots) && |after| == |memory| && i < slots
    requires View(memory, start, slots)[i] == Erased
    requires CutOps(memory, Lower(start, Put(i, r)) + rest, after)
    ensures Torn(View(memory, start, slots), Put(i, r), View(after, start, slots))
            || CutOps(ApplyAll(memory, Lower(start, Put(i, r))), rest, after)
  {
    hide View, TornOp, CutOps, Apply, ApplyAll, Body, Torn;
    var body, commit := Program(start + 256 * i, Body(r)), Program(start + 256 * i, [COMMITTED]);
    TwoOpsCut(memory, body, commit, rest, after);
    if after == memory {
      TornMayDoNothing(View(memory, start, slots), Put(i, r));
    } else if TornOp(memory, body, after) {
      BodyCut(memory, start, slots, i, r, after);
    } else if after == Apply(memory, body) || TornOp(Apply(memory, body), commit, after) {
      CommitCut(memory, start, slots, i, r, after);
    }
  }

  lemma RetireCuts(memory: Memory, start: nat, slots: nat, i: nat, rest: seq<FlashOp>, after: Memory)
    requires Fits(memory, start, slots) && |after| == |memory| && i < slots
    requires View(memory, start, slots)[i].Active?
    requires CutOps(memory, Lower(start, Retire(i)) + rest, after)
    ensures Torn(View(memory, start, slots), Retire(i), View(after, start, slots))
            || CutOps(ApplyAll(memory, Lower(start, Retire(i))), rest, after)
  {
    hide ReadsAs, Overlay, TornOp, CutOps, ApplyAll;
    OneOpCut(memory, Program(start + 256 * i, [ACKNOWLEDGED]), rest, after);
    if after != memory && TornOp(memory, Program(start + 256 * i, [ACKNOWLEDGED]), after) {
      TearsOnePage(memory, start, slots, i, [ACKNOWLEDGED], after);
      TornRetire(Page(memory, start, i), Page(after, start, i));
      RetireOverActive(Page(memory, start, i));
    }
  }

  lemma EraseCuts(memory: Memory, start: nat, slots: nat, s: nat, rest: seq<FlashOp>, after: Memory)
    requires Fits(memory, start, slots) && |after| == |memory| && 16 * s + 16 <= slots
    requires CutOps(memory, Lower(start, Erase(s)) + rest, after)
    ensures Torn(View(memory, start, slots), Erase(s), View(after, start, slots))
            || CutOps(ApplyAll(memory, Lower(start, Erase(s))), rest, after)
  {
    hide ReadsAs, TornOp, CutOps, ApplyAll;
    var op := EraseRange(start + 4096 * s, start + 4096 * s + 4096);
    OneOpCut(memory, op, rest, after);
    if after != memory && TornOp(memory, op, after) {
      TearsOneSector(memory, start, slots, s, after);
    }
  }

  /** Cut short, they leave what the step cut short may leave. */
  lemma StepCut(memory: Memory, start: nat, slots: nat, step: Step, rest: seq<FlashOp>, after: Memory)
    requires Fits(memory, start, slots) && |after| == |memory| && Enabled(View(memory, start, slots), step)
    requires CutOps(memory, Lower(start, step) + rest, after)
    ensures Torn(View(memory, start, slots), step, View(after, start, slots))
            || CutOps(ApplyAll(memory, Lower(start, step)), rest, after)
  {
    hide View, TornOp, Torn, CutOps, ApplyAll, HasActive, HoldsNewest;
    match step
    case Put(i, r) => PutCuts(memory, start, slots, i, r, rest, after);
    case Retire(i) => RetireCuts(memory, start, slots, i, rest, after);
    case Erase(s) => EraseCuts(memory, start, slots, s, rest, after);
  }

  // ----- whole lists

  lemma {:induction false} StepsRun(memory: Memory, start: nat, slots: nat, steps: seq<Step>)
    requires Fits(memory, start, slots) && AllEnabled(View(memory, start, slots), steps)
    ensures View(ApplyAll(memory, LowerAll(start, steps)), start, slots) == DoAll(View(memory, start, slots), steps)
    decreases steps
  {
    hide Lower, View, Do, Enabled;
    if steps != [] {
      StepRuns(memory, start, slots, steps[0]);
      var between := ApplyAll(memory, Lower(start, steps[0]));
      StepsRun(between, start, slots, steps[1..]);
      ApplyAllAppend(memory, Lower(start, steps[0]), LowerAll(start, steps[1..]));
    }
  }

  /** Refinement of power cuts: wherever the power fails among the byte operations, at whatever
      bit, the memory reads as one of the regions the slot steps allow. */
  lemma {:induction false} CutRefines(memory: Memory, start: nat, slots: nat, steps: seq<Step>, after: Memory)
    requires Fits(memory, start, slots) && AllEnabled(View(memory, start, slots), steps)
    requires CutOps(memory, LowerAll(start, steps), after)
    ensures |after| == |memory|
    ensures Cut(View(memory, start, slots), steps, View(after, start, slots))
    decreases steps
  {
    hide Lower, Do, Enabled, Torn;
    CutKeepsLength(memory, LowerAll(start, steps), after);
    hide View;
    if steps != [] {
      var rest := LowerAll(start, steps[1..]);
      StepCut(memory, start, slots, steps[0], rest, after);
      if CutOps(ApplyAll(memory, Lower(start, steps[0])), rest, after) {
        StepRuns(memory, start, slots, steps[0]);
        CutRefines(ApplyAll(memory, Lower(start, steps[0])), start, slots, steps[1..], after);
      }
    }
  }

  lemma {:induction false} CutKeepsLength(memory: Memory, ops: seq<FlashOp>, after: Memory)
    requires CutOps(memory, ops, after)
    ensures |after| == |memory|
    decreases ops
  {
    if after != memory && !TornOp(memory, ops[0], after) {
      CutKeepsLength(Apply(memory, ops[0]), ops[1..], after);
    }
  }

  // ----- discipline

  /** Writes stay inside the region, an erase is one whole aligned sector of it, and no page it
      erases reads as Active. */
  ghost predicate Proper(memory: Memory, op: FlashOp, start: nat, end: nat) {
    Legal(memory, op) &&
    match op
    case Program(at, data) => start <= at && at + |data| <= end
    case EraseRange(from, to) =>
      && start <= from && to <= end && to == from + ERASE_SIZE
      && forall k: nat :: k < 16 ==> !ReadsAs(PageAt(memory, from + 256 * k)).Active?
  }

  ghost predicate AllProper(memory: Memory, ops: seq<FlashOp>, start: nat, end: nat)
    decreases ops
  {
    ops == [] || (Proper(memory, ops[0], start, end) && AllProper(Apply(memory, ops[0]), ops[1..], start, end))
  }

  lemma PutIsProper(memory: Memory, start: nat, slots: nat, i: nat, r: Record)
    requires Fits(memory, start, slots) && i < slots && View(memory, start, slots)[i] == Erased
    ensures AllProper(memory, Lower(start, Put(i, r)), start, start + 256 * slots)
  {
    hide Encode, Decode, Apply;
    var body, commit := Program(start + 256 * i, Body(r)), Program(start + 256 * i, [COMMITTED]);
    forall k | 0 <= k < 256 ensures OnlyClears(memory[start + 256 * i + k], Body(r)[k]) {
      assert Page(memory, start, i)[k] == ERASED;
      AndOnes(Body(r)[k]);
    }
    var between := Apply(memory, body);
    BodyWrites(memory, start, slots, i, r);
    BodyReadsCorrupt(r);
    OneBitOrNone(0);
    assert Page(between, start, i)[0] == between[start + 256 * i] == ERASED;
    assert [body, commit][1..] == [commit];
    assert Proper(memory, body, start, start + 256 * slots);
    assert Proper(between, commit, start, start + 256 * slots);
    assert AllProper(Apply(between, commit), [commit][1..], start, start + 256 * slots);
    assert AllProper(between, [commit], start, start + 256 * slots);
  }

  lemma BodyIsLegal(memory: Memory, start: nat, slots: nat, i: nat, r: Record)
    requires Fits(memory, start, slots) && i < slots && View(memory, start, slots)[i] == Erased
    ensures Legal(memory, Program(start + 256 * i, Body(r)))
    ensures Legal(Apply(memory, Program(start + 256 * i, Body(r))), Program(start + 256 * i, [COMMITTED]))
  {
    hide Legal, Apply, ReadsAs, Encode, Body;
    PutIsProper(memory, start, slots, i, r);
    var body, commit := Program(start + 256 * i, Body(r)), Program(start + 256 * i, [COMMITTED]);
    assert Lower(start, Put(i, r))[1..] == [commit];
  }

  lemma RetireIsProper(memory: Memory, start: nat, slots: nat, i: nat)
    requires Fits(memory, start, slots) && i < slots && View(memory, start, slots)[i].Active?
    ensures AllProper(memory, Lower(start, Retire(i)), start, start + 256 * slots)
  {
    hide Decode, Apply;
    assert Page(memory, start, i)[0] == memory[start + 256 * i] == COMMITTED;
    OneBitOrNone(0);
  }

  lemma RetireIsLegal(memory: Memory, start: nat, slots: nat, i: nat)
    requires Fits(memory, start, slots) && i < slots && View(memory, start, slots)[i].Active?
    ensures Legal(memory, Program(start + 256 * i, [ACKNOWLEDGED]))
  {
    hide Legal, Apply, ReadsAs;
    RetireIsProper(memory, start, slots, i);
  }

  lemma EraseIsProper(memory: Memory, start: nat, slots: nat, s: nat)
    requires Fits(memory, start, slots) && start % ERASE_SIZE == 0 && 16 * s + 16 <= slots
    requires !HasActive(View(memory, start, slots), s)
    ensures AllProper(memory, Lower(start, Erase(s)), start, start + 256 * slots)
  {
    hide ReadsAs, Apply, PageAt;
    var from := start + 4096 * s;
    forall k: nat | k < 16 ensures !ReadsAs(PageAt(memory, from + 256 * k)).Active? {
      SectorPage(memory, start, slots, s, k);
    }
    hide HasActive, View;
    assert Proper(memory, EraseRange(from, from + 4096), start, start + 256 * slots);
  }

  lemma SectorIsLegal(memory: Memory, start: nat, slots: nat, s: nat)
    requires Fits(memory, start, slots) && start % ERASE_SIZE == 0 && 16 * s + 16 <= slots
    ensures Legal(memory, EraseRange(start + 4096 * s, start + 4096 * s + 4096))
  {}

  lemma SectorPage(memory: Memory, start: nat, slots: nat, s: nat, k: nat)
    requires Fits(memory, start, slots) && 16 * s + 16 <= slots && k < 16
    requires !HasActive(View(memory, start, slots), s)
    ensures !ReadsAs(PageAt(memory, start + 4096 * s + 256 * k)).Active?
  {
    hide ReadsAs, PageAt;
    assert !View(memory, start, slots)[16 * s + k].Active?;
    assert start + 4096 * s + 256 * k == start + 256 * (16 * s + k);
  }

  lemma ProperOpInside(memory: Memory, op: FlashOp, start: nat, end: nat, after: Memory)
    requires Proper(memory, op, start, end) && (TornOp(memory, op, after) || after == Apply(memory, op))
    ensures SameOutside(memory, after, start, end)
  {
    hide Legal, ReadsAs, TornByte, TornPage, PageAt;
  }

  /** However far proper operations get, they touch nothing else. */
  lemma {:induction false} CutStaysInside(memory: Memory, ops: seq<FlashOp>, start: nat, end: nat, after: Memory)
    requires AllProper(memory, ops, start, end) && CutOps(memory, ops, after)
    ensures SameOutside(memory, after, start, end)
    decreases ops
  {
    hide Proper, Apply, TornOp;
    if after != memory {
      ProperOpInside(memory, ops[0], start, end, Apply(memory, ops[0]));
      if TornOp(memory, ops[0], after) {
        ProperOpInside(memory, ops[0], start, end, after);
      } else {
        CutStaysInside(Apply(memory, ops[0]), ops[1..], start, end, after);
      }
    }
  }

  /** Every write the queue issues only clears bits inside the region, and every erase covers one
      whole aligned sector of it that holds no waiting record. */
  lemma {:induction false} FlashDiscipline(memory: Memory, start: nat, slots: nat, steps: seq<Step>)
    requires Fits(memory, start, slots) && start % ERASE_SIZE == 0
    requires AllEnabled(View(memory, start, slots), steps)
    ensures AllProper(memory, LowerAll(start, steps), start, start + 256 * slots)
    decreases steps
  {
    hide View, Do, Lower, Proper, HasActive;
    if steps != [] {
      match steps[0] {
        case Put(i, r) => PutIsProper(memory, start, slots, i, r);
        case Retire(i) => RetireIsProper(memory, start, slots, i);
        case Erase(s) => EraseIsProper(memory, start, slots, s);
      }
      StepRuns(memory, start, slots, steps[0]);
      FlashDiscipline(ApplyAll(memory, Lower(start, steps[0])), start, slots, steps[1..]);
      ProperAppend(memory, Lower(start, steps[0]), LowerAll(start, steps[1..]), start, start + 256 * slots);
    }
  }

  lemma {:induction false} ProperAppend(memory: Memory, a: seq<FlashOp>, b: seq<FlashOp>, start: nat, end: nat)
    requires AllProper(memory, a, start, end) && AllProper(ApplyAll(memory, a), b, start, end)
    ensures AllProper(memory, a + b, start, end)
    decreases a
  {
    hide Proper, Apply;
    if a == [] {
      assert a + b == b;
    } else {
      assert (a + b)[1..] == a[1..] + b;
      ProperAppend(Apply(memory, a[0]), a[1..], b, start, end);
    }
  }
}
