/** The application clock across clock-gated sleep. Times are in microseconds since the timers were
    started. */
module SleepClock {
  import opened Types
  import opened Schedule

  /** One cycle of the application's work: when it ended on the native timer, and what it found out
      about the power source. */
  datatype Work = Work(endedUs: nat, onBattery: Option<bool>)

  /** The two hardware timers. The native one counts microseconds, but only awake; the always-on one
      counts whole milliseconds, always, and has an alarm. What they were asked to do is counted. */
  class Timers {
    var elapsed: nat
    var native: nat
    var alarm: nat
    ghost var asked: nat
    ghost var refusals: nat
    ghost var work: seq<Work>

    ghost predicate Valid()
      reads this
    {
      native <= elapsed
    }

    function AonMs(): nat
      reads this
    {
      elapsed / 1000
    }

    function AlarmFired(): bool
      reads this
    {
      AonMs() >= alarm
    }

    constructor ()
      ensures Valid() && elapsed == 0 && native == 0 && asked == 0 && refusals == 0 && work == []
    {
      elapsed, native, alarm := 0, 0, 0;
      asked, refusals, work := 0, 0, [];
    }

    /** The application works, awake, for as long as it likes. */
    method DoWork() returns (onBattery: Option<bool>)
      requires Valid()
      modifies this`elapsed, this`native, this`work
      ensures Valid() && elapsed - old(elapsed) == native - old(native) >= 0
      ensures work == old(work) + [Work(native, onBattery)]
    {
      var spent: int := *;
      if spent > 0 {
        elapsed, native := elapsed + spent, native + spent;
      }
      onBattery := *;
      work := work + [Work(native, onBattery)];
    }

    /** Awake and waiting, for at least the given time. */
    method Run(atLeast: nat)
      requires Valid()
      modifies this`elapsed, this`native, this`asked
      ensures Valid() && elapsed - old(elapsed) == native - old(native) >= atLeast
      ensures asked == old(asked) + atLeast
    {
      var extra: int := *;
      var spent := atLeast + if extra > 0 then extra else 0;
      elapsed, native, asked := elapsed + spent, native + spent, asked + atLeast;
    }

    /** The timer may refuse an alarm. */
    method SetAlarm(at: nat) returns (accepted: bool)
      modifies this`alarm, this`refusals
      ensures accepted ==> alarm == at
      ensures refusals == old(refusals) + if accepted then 0 else 1
    {
      accepted := *;
      if accepted {
        alarm := at;
      } else {
        refusals := refusals + 1;
      }
    }

    /** Asleep until some interrupt, which may come early. */
    method WaitForInterrupt()
      requires Valid()
      modifies this`elapsed
      ensures Valid() && elapsed > old(elapsed)
    {
      var slept: int := *;
      elapsed := elapsed + if slept > 0 then slept else 1;
    }
  }

  // ----- sleeps

  /** A sleep between two true times, of which the native timer saw some. */
  datatype Sleep = Sleep(from: nat, to: nat, nativeUs: nat) {
    predicate Valid() {
      from <= to && nativeUs <= to - from
    }

    function AonMs(): nat
      requires Valid()
    {
      to / 1000 - from / 1000
    }

    /** By how much it moves the offset. */
    function Correction(): nat
      requires Valid()
    {
      SleepCorrection(AonMs(), nativeUs)
    }

    /** By how much it ought to: the time the native timer missed. */
    function Missed(): nat
      requires Valid()
    {
      to - from - nativeUs
    }
  }

  /** By how much one sleep moves application time. */
  function Advance(aonMs: nat, nativeUs: nat): nat {
    nativeUs + SleepCorrection(aonMs, nativeUs)
  }

  /** The larger of the two readings, and within a millisecond of the truth. */
  lemma SleepAdvances(from: nat, to: nat, nativeUs: nat)
    requires from <= to && nativeUs <= to - from
    ensures var aonMs := to / 1000 - from / 1000;
            && Advance(aonMs, nativeUs) == (if nativeUs >= 1000 * aonMs then nativeUs else 1000 * aonMs)
            && -1000 < Advance(aonMs, nativeUs) - (to - from) < 1000
  {}

  /** A sleep in which the always-on timer reached its alarm. */
  lemma SleepReaches(s: Sleep, remaining: nat)
    requires s.Valid() && s.to / 1000 >= s.from / 1000 + remaining / 1000
    ensures s.nativeUs + s.Correction() + 1000 > remaining
    ensures -1000 < s.Correction() - s.Missed() < 1000
  {
    SleepAdvances(s.from, s.to, s.nativeUs);
  }

  predicate AllValid(sleeps: seq<Sleep>) {
    forall k :: 0 <= k < |sleeps| ==> sleeps[k].Valid()
  }

  /** What the offset grows to. */
  function OffsetAfter(sleeps: seq<Sleep>): nat
    requires AllValid(sleeps)
  {
    if sleeps == [] then 0
    else
      var last := |sleeps| - 1;
      OffsetAfter(sleeps[..last]) + sleeps[last].Correction()
  }

  /** What it ought to be. */
  function MissedBy(sleeps: seq<Sleep>): nat
    requires AllValid(sleeps)
  {
    if sleeps == [] then 0
    else
      var last := |sleeps| - 1;
      MissedBy(sleeps[..last]) + sleeps[last].Missed()
  }

  /** After any number of sleeps the clock is off by less than a millisecond for each. */
  lemma {:induction false} DriftBound(sleeps: seq<Sleep>)
    requires AllValid(sleeps)
    ensures -1000 * |sleeps| <= OffsetAfter(sleeps) - MissedBy(sleeps) <= 1000 * |sleeps|
    ensures sleeps != [] ==> -1000 * |sleeps| < OffsetAfter(sleeps) - MissedBy(sleeps) < 1000 * |sleeps|
  {
    if sleeps != [] {
      var last := |sleeps| - 1;
      DriftBound(sleeps[..last]);
      SleepAdvances(sleeps[last].from, sleeps[last].to, sleeps[last].nativeUs);
    }
  }

  // ----- waiting

  const FLUSH_US := 20_000
  const MINIMUM_SLEEP_US := 2_000

  /** What the clock shows, its offset, the time the native timer has missed, and what the timers
      were asked to do. */
  datatype Reading = Reading(now: nat, offset: nat, missed: int, asked: nat, refusals: nat, work: seq<Work>) {
    /** How far application time is ahead of the time that really passed. */
    function Drift(): int {
      offset - missed
    }
  }

  class Sleeper {
    const timers: Timers
    var offsetUs: nat

    constructor (timers: Timers)
      ensures this.timers == timers && offsetUs == 0
    {
      this.timers, offsetUs := timers, 0;
    }

    /** Application time. */
    function Now(): nat
      reads this, timers
    {
      timers.native + offsetUs
    }

    /** How far application time is ahead of the time that really passed. */
    ghost function Drift(): int
      reads this, timers
    {
      Now() - timers.elapsed
    }

    /** The time the native timer has missed. */
    ghost function Missed(): int
      reads this, timers
    {
      timers.elapsed - timers.native
    }

    ghost function Reads(): (r: Reading)
      reads this, timers
      ensures r.Drift() == Drift()
    {
      Reading(Now(), offsetUs, Missed(), timers.asked, timers.refusals, timers.work)
    }

    /** Set the alarm, and in a stretch without interrupts sleep until it fires. */
    method SleepFor(remaining: nat) returns (accepted: bool, ghost sleep: Sleep)
      requires timers.Valid()
      modifies this, timers
      ensures timers.Valid() && timers.asked == old(timers.asked) && timers.work == old(timers.work)
      ensures timers.refusals == old(timers.refusals) + if accepted then 0 else 1
      ensures !accepted ==> timers.elapsed == old(timers.elapsed) && timers.native == old(timers.native) && offsetUs == old(offsetUs)
      ensures accepted ==>
                && sleep.Valid() && old(timers.elapsed) == sleep.from <= sleep.to == timers.elapsed
                && offsetUs == old(offsetUs) + sleep.Correction() && Missed() == old(Missed()) + sleep.Missed()
                && timers.native == old(timers.native) + sleep.nativeUs
                && sleep.to / 1000 >= sleep.from / 1000 + remaining / 1000
    {
      hide SleepCorrection;
      sleep := Sleep(0, 0, 0);
      var aonBefore, nativeBefore := timers.AonMs(), timers.native;
      ghost var from := timers.elapsed;
      accepted := timers.SetAlarm(aonBefore + remaining / 1000);
      if !accepted {
        return;
      }
      timers.Run(0);
      while !timers.AlarmFired()
        invariant timers.Valid() && timers.elapsed >= from
        invariant timers.native - nativeBefore <= timers.elapsed - from
        invariant timers.native >= nativeBefore && offsetUs == old(offsetUs)
        invariant timers.alarm == aonBefore + remaining / 1000
        invariant timers.asked == old(timers.asked) && timers.refusals == old(timers.refusals) && timers.work == old(timers.work)
        decreases 1000 * timers.alarm - timers.elapsed
      {
        timers.WaitForInterrupt();
      }
      timers.Run(0);
      var aonElapsed, nativeElapsed := timers.AonMs() - aonBefore, timers.native - nativeBefore;
      sleep := Sleep(from, timers.elapsed, nativeElapsed);
      offsetUs := offsetUs + SleepCorrection(aonElapsed, nativeElapsed);
    }

    /** One wait. Application time never goes backward. On other power it stays awake until the
        deadline. On battery it asks for at most twenty milliseconds awake; from there on it sleeps
        unless the alarm is refused or less than two milliseconds are left. A wait that sleeps moves
        the drift by less than a millisecond either way and wakes at most a millisecond before the
        deadline; one that does not sleep moves no drift. */
    method WaitUntil(deadline: nat, battery: bool) returns (slept: bool, ghost refused: bool, ghost sleep: Sleep)
      requires timers.Valid()
      modifies this, timers
      ensures timers.Valid() && timers.work == old(timers.work)
      ensures Now() >= old(Now()) && timers.elapsed >= old(timers.elapsed)
      ensures deadline < old(Now()) ==> !slept && !refused && timers.elapsed == old(timers.elapsed)
      ensures timers.refusals == old(timers.refusals) + if refused then 1 else 0
      ensures timers.asked - old(timers.asked) <=
                if battery then 20_000 else if deadline < old(Now()) then 0 else deadline - old(Now())
      ensures !battery ==> !slept && !refused && Now() >= deadline
      ensures !slept && !refused ==> Now() + 2_000 > deadline
      ensures slept || refused ==> old(Now()) + 22_000 <= deadline
      ensures !slept ==> Drift() == old(Drift()) && offsetUs == old(offsetUs) && Missed() == old(Missed())
      ensures slept ==> !refused && sleep.Valid() && old(timers.elapsed) <= sleep.from && sleep.to <= timers.elapsed
      ensures slept ==> offsetUs == old(offsetUs) + sleep.Correction() && Missed() == old(Missed()) + sleep.Missed()
      ensures slept ==> -1000 < Drift() - old(Drift()) < 1000
      ensures slept ==> Now() + 1000 > deadline
    {
      hide SleepCorrection;
      slept, refused, sleep := false, false, Sleep(0, 0, 0);
      if deadline < Now() {
        return;
      }
      if !battery {
        timers.Run(deadline - Now());
        return;
      }
      timers.Run(FLUSH_US);
      if deadline < Now() {
        return;
      }
      var remaining := deadline - Now();
      if remaining < MINIMUM_SLEEP_US {
        return;
      }
      slept, sleep := SleepFor(remaining);
      refused := !slept;
      if slept {
        SleepReaches(sleep, remaining);
      }
    }
  }

  // ----- the main loop

  /** What the sleeps so far have done to the clock. */
  ghost predicate Accounts(sleeps: seq<Sleep>, offset: int, missed: int, offsetNow: int, missedNow: int) {
    && AllValid(sleeps)
    && offsetNow == offset + OffsetAfter(sleeps) && missedNow == missed + MissedBy(sleeps)
  }

  lemma OneMoreSleep(sleeps: seq<Sleep>, s: Sleep, offset: int, missed: int, offsetNow: int, missedNow: int)
    requires Accounts(sleeps, offset, missed, offsetNow, missedNow) && s.Valid()
    ensures Accounts(sleeps + [s], offset, missed, offsetNow + s.Correction(), missedNow + s.Missed())
  {
    assert (sleeps + [s])[..|sleeps|] == sleeps;
  }

  /** One cycle: its work, when that was done on the application clock, the deadline it then waited
      for, whether the alarm was refused, and when it woke. */
  datatype Cycle = Cycle(work: Work, endMs: nat, deadlineMs: nat, refused: bool, wokenUs: nat)

  ghost function Ends(run: seq<Cycle>): seq<nat> {
    seq(|run|, k requires 0 <= k < |run| => run[k].endMs)
  }

  /** The deadlines are those of the schedule, and no wait whose alarm was accepted ends more than
      two milliseconds before its deadline. */
  ghost predicate OnSchedule(first: nat, interval: nat, run: seq<Cycle>)
    requires interval > 0
  {
    forall k :: 0 <= k < |run| ==>
      && run[k].deadlineMs == Deadline(first, interval, Ends(run), k + 1)
      && (!run[k].refused ==> run[k].wokenUs + MINIMUM_SLEEP_US > 1000 * run[k].deadlineMs)
  }

  lemma {:induction false} DeadlinePrefix(first: nat, interval: nat, a: seq<nat>, b: seq<nat>, k: nat)
    requires interval > 0 && k <= |a| && a <= b
    ensures Deadline(first, interval, a, k) == Deadline(first, interval, b, k)
  {
    hide NextDeadline;
    if k > 0 {
      DeadlinePrefix(first, interval, a, b, k - 1);
    }
  }

  /** Within a cycle and from each to the next application time never goes backward. */
  ghost predicate Forward(run: seq<Cycle>) {
    && (forall k :: 0 <= k < |run| ==> 1000 * run[k].endMs <= run[k].wokenUs)
    && (forall k :: 0 < k < |run| ==> run[k - 1].wokenUs < 1000 * (run[k].endMs + 1))
  }

  lemma OneMoreForward(run: seq<Cycle>, c: Cycle)
    requires Forward(run) && 1000 * c.endMs <= c.wokenUs
    requires run != [] ==> run[|run| - 1].wokenUs < 1000 * (c.endMs + 1)
    ensures Forward(run + [c])
  {}

  lemma OneMoreCycle(first: nat, interval: nat, run: seq<Cycle>, c: Cycle)
    requires interval > 0 && OnSchedule(first, interval, run)
    requires c.deadlineMs == NextDeadline(Deadline(first, interval, Ends(run), |run|), c.endMs, interval)
    requires !c.refused ==> c.wokenUs + MINIMUM_SLEEP_US > 1000 * c.deadlineMs
    ensures OnSchedule(first, interval, run + [c])
    ensures Deadline(first, interval, Ends(run + [c]), |run| + 1) == c.deadlineMs
  {
    hide NextDeadline;
    var longer := run + [c];
    assert Ends(run) <= Ends(longer);
    forall k | 0 <= k < |longer|
      ensures longer[k].deadlineMs == Deadline(first, interval, Ends(longer), k + 1)
    {
      DeadlinePrefix(first, interval, Ends(run), Ends(longer), if k < |run| then k + 1 else k);
    }
  }

  lemma PhaseOfRun(first: nat, interval: nat, run: seq<Cycle>)
    requires interval > 0 && OnSchedule(first, interval, run)
    ensures forall k :: 0 <= k < |run| ==> InPhase(first, interval, run[k].deadlineMs)
    ensures forall j, k :: 0 <= j < k < |run| ==> run[j].deadlineMs < run[k].deadlineMs
  {
    hide InPhase, Deadline;
    forall k | 0 <= k < |run|
      ensures InPhase(first, interval, run[k].deadlineMs)
      ensures forall j :: 0 <= j < k ==> run[j].deadlineMs < run[k].deadlineMs
    {
      ScheduleKeepsPhase(first, interval, Ends(run), k + 1);
    }
  }

  /** What one cycle does: its deadline follows the schedule from the end of its work, its wait ends no
      more than two milliseconds early unless the alarm was refused, it slept at most once and only
      on battery, and on battery it asked for at most twenty milliseconds awake. */
  ghost predicate CycleRan(interval: nat, previous: nat, before: Reading, cycle: Cycle, slept: seq<Sleep>, now: Reading)
    requires interval > 0
  {
    && now.work == before.work + [cycle.work] && cycle.endMs == (cycle.work.endedUs + before.offset) / 1000
    && cycle.deadlineMs == NextDeadline(previous, cycle.endMs, interval)
    && before.now < 1000 * (cycle.endMs + 1) && 1000 * cycle.endMs <= cycle.wokenUs == now.now && before.now <= now.now
    && now.refusals == before.refusals + (if cycle.refused then 1 else 0)
    && (!cycle.refused ==> cycle.wokenUs + MINIMUM_SLEEP_US > 1000 * cycle.deadlineMs)
    && (cycle.work.onBattery == Some(true) ==> now.asked <= before.asked + FLUSH_US)
    && (cycle.work.onBattery != Some(true) ==> slept == [] && !cycle.refused && cycle.wokenUs >= 1000 * cycle.deadlineMs)
    && |slept| <= 1 && (slept == [] ==> now.offset == before.offset && now.missed == before.missed)
    && (slept != [] ==> slept[0].Valid() && now.offset == before.offset + slept[0].Correction()
                        && now.missed == before.missed + slept[0].Missed())
  }

  ghost function Works(run: seq<Cycle>): seq<Work> {
    seq(|run|, k requires 0 <= k < |run| => run[k].work)
  }

  ghost function Refused(run: seq<Cycle>): nat {
    if run == [] then 0 else Refused(run[..|run| - 1]) + if run[|run| - 1].refused then 1 else 0
  }

  ghost predicate OnBattery(run: seq<Cycle>) {
    forall k :: 0 <= k < |run| ==> run[k].work.onBattery == Some(true)
  }

  /** What the timers were asked to do in the run. */
  ghost predicate Asked(begun: Reading, run: seq<Cycle>, now: Reading) {
    && now.work == begun.work + Works(run)
    && now.refusals == begun.refusals + Refused(run)
    && (OnBattery(run) ==> now.asked <= begun.asked + FLUSH_US * |run|)
  }

  lemma AskedOnceMore(begun: Reading, run: seq<Cycle>, before: Reading, c: Cycle, now: Reading)
    requires Asked(begun, run, before) && now.work == before.work + [c.work]
    requires now.refusals == before.refusals + if c.refused then 1 else 0
    requires c.work.onBattery == Some(true) ==> now.asked <= before.asked + FLUSH_US
    ensures Asked(begun, run + [c], now)
  {
    var longer := run + [c];
    assert longer[..|run|] == run && longer[|run|] == c;
    assert Works(longer) == Works(run) + [c.work];
    if OnBattery(longer) {
      assert forall k :: 0 <= k < |run| ==> longer[k] == run[k];
      assert OnBattery(run);
    }
  }

  lemma {:induction false} NoneRefused(run: seq<Cycle>, k: nat)
    requires k < |run| && Refused(run) == 0
    ensures !run[k].refused
  {
    if k < |run| - 1 {
      NoneRefused(run[..|run| - 1], k);
    }
  }

  /** How far the main loop has got since the clock read `begun`. */
  ghost predicate Progress(begun: Reading, interval: nat, run: seq<Cycle>, sleeps: seq<Sleep>, nextCycle: nat, now: Reading)
    requires interval > 0
  {
    && OnSchedule(begun.now / 1000, interval, run)
    && nextCycle == Deadline(begun.now / 1000, interval, Ends(run), |run|)
    && Forward(run) && now.now >= begun.now && (run != [] ==> run[|run| - 1].wokenUs == now.now)
    && Accounts(sleeps, begun.offset, begun.missed, now.offset, now.missed) && |sleeps| <= |run|
    && Asked(begun, run, now)
  }

  lemma ProgressStarts(begun: Reading, interval: nat)
    requires interval > 0
    ensures Progress(begun, interval, [], [], begun.now / 1000, begun)
  {}

  lemma ProgressGoesOn(begun: Reading, interval: nat, run: seq<Cycle>, sleeps: seq<Sleep>, previous: nat, before: Reading,
                       cycle: Cycle, slept: seq<Sleep>, now: Reading)
    requires interval > 0 && Progress(begun, interval, run, sleeps, previous, before)
    requires CycleRan(interval, previous, before, cycle, slept, now)
    ensures Progress(begun, interval, run + [cycle], sleeps + slept, cycle.deadlineMs, now)
  {
    var first := begun.now / 1000;
    assert |sleeps + slept| <= |run + [cycle]|;
    hide NextDeadline, Deadline, Ends, OnSchedule, Accounts, Forward, Asked;
    OneMoreCycle(first, interval, run, cycle);
    OneMoreForward(run, cycle);
    AskedOnceMore(begun, run, before, cycle, now);
    if slept == [] {
      assert sleeps + slept == sleeps;
    } else {
      assert slept == [slept[0]];
      OneMoreSleep(sleeps, slept[0], begun.offset, begun.missed, before.offset, before.missed);
    }
  }

  /** Awake for as long as the work takes, then the wait for the next deadline. */
  method RunCycle(sleeper: Sleeper, interval: nat, previous: nat)
    returns (nextCycle: nat, ghost cycle: Cycle, ghost slept: seq<Sleep>)
    requires sleeper.timers.Valid() && interval > 0
    modifies sleeper, sleeper.timers
    ensures sleeper.timers.Valid() && nextCycle == cycle.deadlineMs
    ensures CycleRan(interval, previous, old(sleeper.Reads()), cycle, slept, sleeper.Reads())
  {
    var onBattery := sleeper.timers.DoWork();
    ghost var work := Work(sleeper.timers.native, onBattery);
    var now := sleeper.Now() / 1000;
    nextCycle := NextDeadline(previous, now, interval);
    hide NextDeadline, SleepCorrection;
    var napped, refused, sleep := sleeper.WaitUntil(1000 * nextCycle, onBattery == Some(true));
    slept := if napped then [sleep] else [];
    cycle := Cycle(work, now, nextCycle, refused, sleeper.Now());
  }

  /** The main loop over any number of cycles, on either kind of power. */
  method RunCycles(sleeper: Sleeper, interval: nat, cycles: nat)
    returns (ghost run: seq<Cycle>, ghost sleeps: seq<Sleep>, nextCycle: nat)
    requires sleeper.timers.Valid() && interval > 0
    modifies sleeper, sleeper.timers
    ensures sleeper.timers.Valid() && |run| == cycles
    ensures Progress(old(sleeper.Reads()), interval, run, sleeps, nextCycle, sleeper.Reads())
  {
    run, sleeps, nextCycle := [], [], sleeper.Now() / 1000;
    ghost var begun := sleeper.Reads();
    ProgressStarts(begun, interval);
    hide Progress, CycleRan;
    var n := 0;
    while n < cycles
      invariant sleeper.timers.Valid() && |run| == n <= cycles
      invariant Progress(begun, interval, run, sleeps, nextCycle, sleeper.Reads())
    {
      ghost var before, previous := sleeper.Reads(), nextCycle;
      ghost var cycle, slept;
      nextCycle, cycle, slept := RunCycle(sleeper, interval, nextCycle);
      ProgressGoesOn(begun, interval, run, sleeps, previous, before, cycle, slept, sleeper.Reads());
      run, sleeps := run + [cycle], sleeps + slept;
      n := n + 1;
    }
  }

  /** Whatever happened in the run, its deadlines keep the phase of the first and strictly increase,
      the clock has drifted by less than a millisecond for each sleep, and if no alarm was refused no
      cycle began more than two milliseconds early. On battery it waited awake for at most twenty
      milliseconds a cycle. */
  lemma RunKeepsPhaseAndTime(begun: Reading, interval: nat, run: seq<Cycle>, sleeps: seq<Sleep>, nextCycle: nat, now: Reading)
    requires interval > 0 && Progress(begun, interval, run, sleeps, nextCycle, now)
    ensures forall k :: 0 <= k < |run| ==> InPhase(begun.now / 1000, interval, run[k].deadlineMs)
    ensures forall j, k :: 0 <= j < k < |run| ==> run[j].deadlineMs < run[k].deadlineMs
    ensures -1000 * |run| <= now.Drift() - begun.Drift() <= 1000 * |run|
    ensures sleeps != [] ==> -1000 * |sleeps| < now.Drift() - begun.Drift() < 1000 * |sleeps|
    ensures sleeps == [] ==> now.Drift() == begun.Drift()
    ensures now.refusals == begun.refusals ==>
              forall k :: 0 <= k < |run| ==> run[k].wokenUs + 2_000 > 1000 * run[k].deadlineMs
    ensures OnBattery(run) ==> now.asked - begun.asked <= 20_000 * |run|
  {
    PhaseOfRun(begun.now / 1000, interval, run);
    DriftBound(sleeps);
    hide Deadline, InPhase;
    if now.refusals == begun.refusals {
      forall k | 0 <= k < |run| ensures run[k].wokenUs + 2_000 > 1000 * run[k].deadlineMs {
        NoneRefused(run, k);
      }
    }
  }
}
