/** The wear bound: over any run without power cuts, at most two sector erasures for every sixteen
    records appended. Each erasure of a partly filled sector is paid for by the erasure of a
    completely filled sector below it. */
module Wear {
  import opened Types
  import opened Slots
  import opened Fifo
  import opened FlashSteps
  import opened QueueModel
  import opened CrashSafety
  import opened PowerLoss

  datatype Tally = Tally(appended: nat, full: nat, partial: nat)

  // ----- how full the sectors are

  ghost predicate HasErased(f: Region, s: nat) {
    exists i :: 16 * s <= i < 16 * s + 16 && i < |f| && f[i].Erased?
  }

  ghost predicate HasUsed(f: Region, s: nat) {
    exists i :: 16 * s <= i < 16 * s + 16 && i < |f| && !f[i].Erased?
  }

  ghost predicate Partial(f: Region, s: nat) {
    HasErased(f, s) && HasUsed(f, s)
  }

  ghost function PartialsBelow(f: Region, n: nat): nat {
    if n == 0 then 0 else PartialsBelow(f, n - 1) + (if Partial(f, n - 1) then 1 else 0)
  }

  function UsedBelow(f: Region, n: nat): nat
    requires n <= |f|
  {
    if n == 0 then 0 else UsedBelow(f, n - 1) + (if f[n - 1].Erased? then 0 else 1)
  }

  ghost function NewestPartial(f: Region): nat {
    if Newest(f).Some? && Partial(f, Newest(f).value / 16) then 1 else 0
  }

  /** Partly filled sectors that allocation has already left behind. */
  ghost function Abandoned(f: Region): int {
    PartialsBelow(f, Sectors(f)) - NewestPartial(f)
  }

  /** The newest record's sector is partly filled, yet allocation is about to leave it for a lower one. */
  ghost predicate AboutToAbandon(f: Region) {
    Newest(f).Some? && HasErased(f, Newest(f).value / 16)
    && exists i :: 0 <= i < 16 * (Newest(f).value / 16) && i < |f| && f[i].Erased?
  }

  /** Every abandoned partly filled sector, and the one about to be, has a full erasure to its name. */
  ghost predicate Paid(f: Region, t: Tally) {
    && t.partial + Abandoned(f) + (if AboutToAbandon(f) then 1 else 0) <= t.full
    && 16 * t.full + UsedBelow(f, |f|) <= t.appended
  }

  // ----- how counting follows a change

  ghost predicate SameShape(f: Region, g: Region, s: nat) {
    |f| == |g| && forall i :: 16 * s <= i < 16 * s + 16 && i < |f| ==> f[i].Erased? == g[i].Erased?
  }

  lemma SamePartial(f: Region, g: Region, s: nat)
    requires SameShape(f, g, s)
    ensures HasErased(f, s) == HasErased(g, s) && HasUsed(f, s) == HasUsed(g, s)
  {
    if HasErased(f, s) {
      var i :| 16 * s <= i < 16 * s + 16 && i < |f| && f[i].Erased?;
      assert g[i].Erased?;
    }
    if HasUsed(f, s) {
      var i :| 16 * s <= i < 16 * s + 16 && i < |f| && !f[i].Erased?;
      assert !g[i].Erased?;
    }
  }

  lemma PartialsFollow(f: Region, g: Region, x: nat, n: nat)
    requires forall s: nat :: s < n && s != x ==> SameShape(f, g, s)
    ensures PartialsBelow(g, n) - PartialsBelow(f, n) ==
            if x < n then (if Partial(g, x) then 1 else 0) - (if Partial(f, x) then 1 else 0) else 0
  {
    hide HasErased, HasUsed, SameShape;
    if n > 0 {
      PartialsFollow(f, g, x, n - 1);
      if n - 1 != x {
        SamePartial(f, g, n - 1);
      }
    }
  }

  lemma UsedAfterUpdate(f: Region, i: nat, slot: Slot, n: nat)
    requires i < |f| && n <= |f|
    ensures UsedBelow(f[i := slot], n) ==
            UsedBelow(f, n) + (if i < n then (if slot.Erased? then 0 else 1) - (if f[i].Erased? then 0 else 1) else 0)
  {
    if n > 0 {
      UsedAfterUpdate(f, i, slot, n - 1);
    }
  }

  lemma UsedAfterErase(f: Region, s: nat, n: nat)
    requires n <= |f|
    ensures UsedBelow(EraseSector(f, s), n) <= UsedBelow(f, n)
    ensures !HasErased(f, s) ==>
              UsedBelow(f, n) - UsedBelow(EraseSector(f, s), n) ==
              if n < 16 * s then 0 else if n < 16 * s + 16 then n - 16 * s else 16
  {
    if n > 0 {
      UsedAfterErase(f, s, n - 1);
      if 16 * s <= n - 1 < 16 * s + 16 && !HasErased(f, s) {
        assert !f[n - 1].Erased?;
      }
    }
  }

  // ----- one step

  ghost function TallyStep(f: Region, step: Step, t: Tally): Tally {
    match step
    case Put(_, _) => t.(appended := t.appended + 1)
    case Retire(_) => t
    case Erase(s) => if HasErased(f, s) then t.(partial := t.partial + 1) else t.(full := t.full + 1)
  }

  lemma RetireStaysPaid(f: Region, i: nat, t: Tally)
    requires Sound(f) && Oldest(f) == Some(i) && Paid(f, t)
    ensures Paid(RetireAt(f, i), t)
  {
    var g := RetireAt(f, i);
    RetireKeepsSound(f, i);
    assert forall j :: 0 <= j < |f| ==> g[j].Erased? == f[j].Erased?;
    PartialsFollow(f, g, Sectors(f), Sectors(f));
    UsedAfterUpdate(f, i, g[i], |f|);
    hide Sound, Contents, Partial;
    SameAbandonment(f, g);
  }

  lemma SameAbandonment(f: Region, g: Region)
    requires |f| == |g| && Newest(f) == Newest(g)
    requires forall j :: 0 <= j < |f| ==> g[j].Erased? == f[j].Erased?
    ensures NewestPartial(f) == NewestPartial(g)
    ensures AboutToAbandon(g) == AboutToAbandon(f)
  {
    if Newest(f).Some? {
      SamePartial(f, g, Newest(f).value / 16);
    }
    hide HasErased, HasUsed;
  }

  /** Lowest-first: the sector left behind has an erased slot, so the new one lies below it. */
  lemma PutStaysPaid(f: Region, i: nat, r: Record, t: Tally)
    requires Sound(f) && Enabled(f, Put(i, r)) && Paid(f, t)
    ensures Paid(Do(f, Put(i, r)), t.(appended := t.appended + 1))
  {
    var g := Do(f, Put(i, r));
    PutKeepsSound(f, i, r);
    var b := i / 16;
    forall s: nat | s < Sectors(f) && s != b ensures SameShape(f, g, s) {}
    PartialsFollow(f, g, b, Sectors(f));
    UsedAfterUpdate(f, i, g[i], |f|);
    hide Sound, Contents, ActiveBelow, NewestBelow, HasErased, HasUsed, SameShape;
    assert !AboutToAbandon(g);
    PutAbandons(f, i);
    hide AboutToAbandon;
  }

  lemma PutAbandons(f: Region, i: nat)
    requires FirstErased(f) == Some(i)
    ensures Newest(f).Some? && Newest(f).value / 16 != i / 16 && Partial(f, Newest(f).value / 16) ==> AboutToAbandon(f)
  {
    if Newest(f).Some? {
      var a := Newest(f).value / 16;
      if a != i / 16 && Partial(f, a) {
        var j :| 16 * a <= j < 16 * a + 16 && j < |f| && f[j].Erased?;
        assert i <= j;
      }
    }
  }

  lemma EraseStaysPaid(f: Region, s: nat, t: Tally)
    requires Enabled(f, Erase(s)) && Paid(f, t)
    ensures Paid(EraseSector(f, s), TallyStep(f, Erase(s), t))
  {
    var g := EraseSector(f, s);
    EraseIsTorn(f, s);
    ErasureLoses(f, s, g);
    LosingKeepsNewest(f, g);
    forall u: nat | u < Sectors(f) && u != s ensures SameShape(f, g, u) {}
    PartialsFollow(f, g, s, Sectors(f));
    UsedAfterErase(f, s, |f|);
    assert HasUsed(f, s);
    assert !HasUsed(g, s);
    EraseAbandons(f, s, g);
    hide HasErased, HasUsed, Reclaimable, AboutToAbandon, Loses, EraseSector, SameShape, NewestBelow;
  }

  /** Only erasing a full sector can open a slot below the newest record's sector. */
  lemma EraseAbandons(f: Region, s: nat, g: Region)
    requires Enabled(f, Erase(s)) && g == EraseSector(f, s) && Newest(g) == Newest(f)
    ensures NewestPartial(g) == NewestPartial(f)
    ensures HasErased(f, s) && AboutToAbandon(g) ==> AboutToAbandon(f)
  {
    hide NewestBelow, HasActive, Dirty;
    if Newest(f).Some? {
      var a := Newest(f).value / 16;
      assert a != s;
      SamePartial(f, g, a);
      if AboutToAbandon(g) && HasErased(f, s) {
        var j :| 0 <= j < 16 * a && j < |g| && g[j].Erased?;
        if !f[j].Erased? {
          var k :| 16 * s <= k < 16 * s + 16 && k < |f| && f[k].Erased?;
          assert k < 16 * a;
        }
        assert AboutToAbandon(f);
      }
    }
  }

  lemma StepStaysPaid(f: Region, step: Step, t: Tally)
    requires Sound(f) && Enabled(f, step) && Paid(f, t)
    ensures Paid(Do(f, step), TallyStep(f, step, t))
  {
    hide Sound, Paid, HasErased;
    match step
    case Put(i, r) => PutStaysPaid(f, i, r, t);
    case Retire(i) => RetireStaysPaid(f, i, t);
    case Erase(s) => EraseStaysPaid(f, s, t);
  }

  // ----- whole runs

  ghost function TallySteps(f: Region, steps: seq<Step>, t: Tally): Tally
    decreases steps
  {
    if steps == [] then t else TallySteps(Do(f, steps[0]), steps[1..], TallyStep(f, steps[0], t))
  }

  lemma {:induction false} StepsStayPaid(f: Region, steps: seq<Step>, t: Tally)
    requires Sound(f) && AllEnabled(f, steps) && Paid(f, t)
    ensures Paid(DoAll(f, steps), TallySteps(f, steps, t))
    decreases steps
  {
    hide Sound, Paid, Enabled, Do, TallyStep;
    if steps != [] {
      StepStaysPaid(f, steps[0], t);
      StepEffect(f, steps[0], Do(f, steps[0]));
      StepsStayPaid(Do(f, steps[0]), steps[1..], TallyStep(f, steps[0], t));
    }
  }

  /** Any interleaving of appends, acknowledgments and clean restarts, from a blank region. */
  ghost function Run(sectors: nat, calls: seq<Call>): (q: Queue)
    requires sectors >= 2
    ensures Consistent(q)
  {
    if calls == [] then
      SameActiveCounts(Blank(sectors), Reclaim(Blank(sectors)));
      Recover(Blank(sectors))
    else
      var last := |calls| - 1;
      var q := Run(sectors, calls[..last]);
      AfterConsistent(q, calls[last]);
      After(q, calls[last])
  }

  lemma AfterConsistent(q: Queue, call: Call)
    requires Consistent(q)
    ensures Consistent(After(q, call))
    ensures DoAll(q.slots, StepsOf(q, call)) == After(q, call).slots
  {
    match call
    case CallAppend(m) => AppendRuns(q, m);
    case CallAcknowledge => AcknowledgeRuns(q);
    case CallRecover =>
      ReclaimStepsRun(q.slots);
      SameActiveCounts(q.slots, Reclaim(q.slots));
  }

  lemma AfterGood(q: Queue, call: Call)
    requires Good(q) && q.next + 1 < TWO_TO_THE_64
    ensures Good(After(q, call)) && After(q, call).next <= q.next + 1
  {
    hide Sound;
    match call
    case CallAppend(m) => AppendEffect(q, m);
    case CallAcknowledge => AcknowledgeEffect(q);
    case CallRecover => RecoverEffect(q.slots);
  }

  lemma BlankIsGood(sectors: nat)
    requires sectors >= 2
    ensures Reclaim(Blank(sectors)) == Blank(sectors)
    ensures Good(Recover(Blank(sectors))) && Recover(Blank(sectors)).next == 0
    ensures Contents(Blank(sectors)) == []
  {
    var f := Blank(sectors);
    assert Newest(f) == None && Oldest(f) == None;
    assert ActiveCount(f) == 0;
    RecoverEffect(f);
  }

  lemma {:induction false} RunGood(sectors: nat, calls: seq<Call>)
    requires sectors >= 2 && |calls| < TWO_TO_THE_64
    ensures Good(Run(sectors, calls)) && Run(sectors, calls).next <= |calls|
  {
    hide Good, Recover, After;
    if calls == [] {
      BlankIsGood(sectors);
    } else {
      var last := |calls| - 1;
      RunGood(sectors, calls[..last]);
      AfterGood(Run(sectors, calls[..last]), calls[last]);
    }
  }

  ghost function RunTally(sectors: nat, calls: seq<Call>): Tally
    requires sectors >= 2
  {
    if calls == [] then Tally(0, 0, 0)
    else
      var last := |calls| - 1;
      var q := Run(sectors, calls[..last]);
      TallySteps(q.slots, StepsOf(q, calls[last]), RunTally(sectors, calls[..last]))
  }

  lemma BlankIsPaid(sectors: nat)
    requires sectors >= 2
    ensures Paid(Blank(sectors), Tally(0, 0, 0))
  {
    var f := Blank(sectors);
    assert Newest(f) == None;
    NothingUsed(f, Sectors(f), |f|);
  }

  lemma NothingUsed(f: Region, s: nat, n: nat)
    requires n <= |f| && forall i :: 0 <= i < |f| ==> f[i].Erased?
    ensures PartialsBelow(f, s) == 0 && UsedBelow(f, n) == 0
  {
    if s > 0 {
      NothingUsed(f, s - 1, n);
    } else if n > 0 {
      NothingUsed(f, s, n - 1);
    }
  }

  lemma {:induction false} RunPaid(sectors: nat, calls: seq<Call>)
    requires sectors >= 2 && |calls| < TWO_TO_THE_64
    ensures Paid(Run(sectors, calls).slots, RunTally(sectors, calls))
  {
    hide Paid, Sound, Recover, After, StepsOf, AllEnabled, DoAll;
    if calls == [] {
      BlankIsGood(sectors);
      BlankIsPaid(sectors);
      assert Recover(Blank(sectors)).slots == Blank(sectors) by { RecoverSlots(Blank(sectors)); }
    } else {
      var last := |calls| - 1;
      var q := Run(sectors, calls[..last]);
      RunGood(sectors, calls[..last]);
      RunPaid(sectors, calls[..last]);
      StepsEnabled(q, calls[last]);
      AfterConsistent(q, calls[last]);
      StepsStayPaid(q.slots, StepsOf(q, calls[last]), RunTally(sectors, calls[..last]));
    }
  }

  lemma RecoverSlots(f: Region)
    ensures Recover(f).slots == Reclaim(f)
  {}

  lemma PartialsCover(f: Region, n: nat)
    ensures Newest(f).Some? && Newest(f).value / 16 < n ==> NewestPartial(f) <= PartialsBelow(f, n)
  {
    if n > 0 {
      PartialsCover(f, n - 1);
    }
  }

  // ----- the tally counts what it says

  ghost function Erasures(steps: seq<Step>): nat {
    if steps == [] then 0 else (if steps[0].Erase? then 1 else 0) + Erasures(steps[1..])
  }

  ghost function Puts(steps: seq<Step>): nat {
    if steps == [] then 0 else (if steps[0].Put? then 1 else 0) + Puts(steps[1..])
  }

  lemma {:induction false} TallyCounts(f: Region, steps: seq<Step>, t: Tally)
    ensures var u := TallySteps(f, steps, t);
            u.full + u.partial == t.full + t.partial + Erasures(steps) && u.appended == t.appended + Puts(steps)
    decreases steps
  {
    if steps != [] {
      TallyCounts(Do(f, steps[0]), steps[1..], TallyStep(f, steps[0], t));
    }
  }

  lemma ErasesPutNothing(steps: seq<Step>)
    requires OnlyErases(steps)
    ensures Puts(steps) == 0
  {
    if steps != [] {
      ErasesPutNothing(steps[1..]);
    }
  }

  lemma PutsAppend(a: seq<Step>, b: seq<Step>)
    ensures Puts(a + b) == Puts(a) + Puts(b)
  {
    if a == [] {
      assert a + b == b;
    } else {
      assert (a + b)[1..] == a[1..] + b;
      PutsAppend(a[1..], b);
    }
  }

  /** A call counts as one record appended exactly when it is an append that succeeded. */
  lemma PutsOf(q: Queue, call: Call)
    requires Consistent(q)
    ensures Puts(StepsOf(q, call)) == if call.CallAppend? && Append(q, call.reading).1.Ok? then 1 else 0
  {
    PutsOfAcknowledge(q.slots);
    ReclaimOnlyErases(q.slots, 0);
    ErasesPutNothing(ReclaimSteps(q.slots));
    if call.CallAppend? {
      var f, r := Evict(q).slots, Record(q.next, call.reading);
      assert Evict(q).next == q.next;
      PutsAppend(EvictSteps(q), PutSteps(f, r));
      if FirstErased(f).Some? {
        var g := Do(f, Put(FirstErased(f).value, r));
        ReclaimOnlyErases(g, 0);
        ErasesPutNothing(ReclaimSteps(g));
        assert PutSteps(f, r)[1..] == ReclaimSteps(g);
      }
    }
  }

  lemma PutsOfAcknowledge(f: Region)
    ensures Puts(AcknowledgeSteps(f)) == 0
  {
    if Oldest(f).Some? {
      var g := RetireAt(f, Oldest(f).value);
      ReclaimOnlyErases(g, 0);
      ErasesPutNothing(ReclaimSteps(g));
      assert AcknowledgeSteps(f)[1..] == ReclaimSteps(g);
    }
  }

  ghost function RunErasures(sectors: nat, calls: seq<Call>): nat
    requires sectors >= 2
  {
    if calls == [] then 0
    else
      var last := |calls| - 1;
      RunErasures(sectors, calls[..last]) + Erasures(StepsOf(Run(sectors, calls[..last]), calls[last]))
  }

  ghost predicate Accepted(q: Queue, call: Call)
    requires Consistent(q)
  {
    call.CallAppend? && Append(q, call.reading).1.Ok?
  }

  ghost function RunAppends(sectors: nat, calls: seq<Call>): nat
    requires sectors >= 2
  {
    if calls == [] then 0
    else
      var last := |calls| - 1;
      RunAppends(sectors, calls[..last]) + (if Accepted(Run(sectors, calls[..last]), calls[last]) then 1 else 0)
  }

  lemma {:induction false} RunTallyCounts(sectors: nat, calls: seq<Call>)
    requires sectors >= 2
    ensures var t := RunTally(sectors, calls);
            t.full + t.partial == RunErasures(sectors, calls) && t.appended == RunAppends(sectors, calls)
  {
    hide StepsOf, TallySteps, Append;
    if calls != [] {
      var last := |calls| - 1;
      var q := Run(sectors, calls[..last]);
      RunTallyCounts(sectors, calls[..last]);
      TallyCounts(q.slots, StepsOf(q, calls[last]), RunTally(sectors, calls[..last]));
      PutsOf(q, calls[last]);
    }
  }

  /** At most two erasures per sixteen records that got in, whatever the run. */
  lemma WearBound(sectors: nat, calls: seq<Call>)
    requires sectors >= 2 && |calls| < TWO_TO_THE_64
    ensures RunErasures(sectors, calls) <= 2 * (RunAppends(sectors, calls) / 16)
  {
    hide Run, RunTally, RunErasures, RunAppends, Paid;
    RunPaid(sectors, calls);
    RunTallyCounts(sectors, calls);
    PaidBounds(Run(sectors, calls).slots, RunTally(sectors, calls));
  }

  lemma PaidBounds(f: Region, t: Tally)
    requires Paid(f, t)
    ensures t.full + t.partial <= 2 * (t.appended / 16)
  {
    PartialsCover(f, Sectors(f));
    hide PartialsBelow, Partial, AboutToAbandon, UsedBelow;
  }
}
