/** Multiplication distributes. */
module Multiplication {
  lemma DistributesSum(a: int, b: int, n: int)
    ensures (a + b) * n == a * n + b * n
  {}

  lemma AtLeastOnce(d: int, n: nat)
    ensures d >= 1 ==> d * n >= n
  {}

  lemma Multiples(p: int, q: int, n: nat)
    ensures p > q ==> p * n - q * n >= n
  {
    DistributesSum(p - q, q, n);
    AtLeastOnce(p - q, n);
  }

  lemma QuotientIs(n: nat, d: nat, q: nat, rest: nat)
    requires d > 0 && n == q * d + rest && rest < d
    ensures n / d == q
  {
    assert n == n / d * d + n % d;
    Multiples(n / d, q, d);
    Multiples(q, n / d, d);
  }
}

/** Fixed-phase deadlines that skip missed slots, and the correction for time spent asleep. */
module Schedule {
  import opened Multiplication

  function SaturatingSub(a: nat, b: nat): nat {
    if a >= b then a - b else 0
  }

  /** The firmware asserts that the interval is positive. */
  function NextDeadline(previous: nat, now: nat, interval: nat): nat
    requires interval > 0
  {
    previous + (SaturatingSub(now, previous) / interval + 1) * interval
  }

  function SleepCorrection(aonElapsedMs: nat, nativeElapsedUs: nat): nat {
    SaturatingSub(aonElapsedMs * 1000, nativeElapsedUs)
  }

  ghost predicate InPhase(first: nat, interval: nat, t: nat) {
    exists m: nat :: t == first + m * interval
  }

  lemma Quotient(x: nat, n: nat)
    requires n > 0
    ensures x / n * n <= x < x / n * n + n
  {
    assert x == x / n * n + x % n;
  }

  lemma Monotone(a: int, b: int, n: nat)
    requires a <= b
    ensures a * n <= b * n
  {
    DistributesSum(a, b - a, n);
    assert (b - a) * n >= 0;
  }

  lemma Ordered(a: int, b: int, n: nat)
    requires a * n < b * n
    ensures a < b
  {
    if b <= a {
      Monotone(b, a, n);
    }
  }

  /** On time or late, the result is the least slot strictly after now; early, the next slot. */
  lemma NextDeadlineIsLeast(previous: nat, now: nat, interval: nat, m: nat)
    requires interval > 0
    ensures InPhase(previous, interval, NextDeadline(previous, now, interval))
    ensures NextDeadline(previous, now, interval) > previous && NextDeadline(previous, now, interval) > now
    ensures now < previous ==> NextDeadline(previous, now, interval) == previous + interval
    ensures now >= previous && previous + m * interval > now ==>
              NextDeadline(previous, now, interval) <= previous + m * interval
  {
    var late := SaturatingSub(now, previous);
    var q := late / interval;
    Quotient(late, interval);
    DistributesSum(q, 1, interval);
    assert NextDeadline(previous, now, interval) == previous + (q + 1) * interval;
    if now < previous {
      assert 0 / interval == 0;
    } else if previous + m * interval > now {
      Ordered(q, m, interval);
      Monotone(q + 1, m, interval);
    }
  }

  /** The deadlines of a run: each cycle ends at its own time `ends[k]`, early or late. */
  function Deadline(first: nat, interval: nat, ends: seq<nat>, k: nat): nat
    requires interval > 0 && k <= |ends|
  {
    if k == 0 then first else NextDeadline(Deadline(first, interval, ends, k - 1), ends[k - 1], interval)
  }

  lemma PhaseCarries(first: nat, interval: nat, s: nat, t: nat)
    requires InPhase(first, interval, s) && InPhase(s, interval, t)
    ensures InPhase(first, interval, t)
  {
    var a: nat :| s == first + a * interval;
    var b: nat :| t == s + b * interval;
    DistributesSum(a, b, interval);
    assert t == first + (a + b) * interval;
  }

  /** Over a whole run every deadline is a slot of the first one's phase, deadlines strictly
      increase, so no slot runs twice, and each lies after the end of the cycle before it. */
  lemma {:induction false} ScheduleKeepsPhase(first: nat, interval: nat, ends: seq<nat>, k: nat)
    requires interval > 0 && k <= |ends|
    ensures InPhase(first, interval, Deadline(first, interval, ends, k))
    ensures forall j :: 0 <= j < k ==> Deadline(first, interval, ends, j) < Deadline(first, interval, ends, k)
    ensures k > 0 ==> ends[k - 1] < Deadline(first, interval, ends, k)
  {
    hide NextDeadline;
    if k == 0 {
      assert first == first + 0 * interval;
    } else {
      ScheduleKeepsPhase(first, interval, ends, k - 1);
      var previous := Deadline(first, interval, ends, k - 1);
      NextDeadlineIsLeast(previous, ends[k - 1], interval, 0);
      hide InPhase;
      PhaseCarries(first, interval, previous, Deadline(first, interval, ends, k));
    }
  }
}
