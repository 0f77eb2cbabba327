/** One boot session: whatever enters the queue leaves through the front or is still in it. */
module Session {
  import opened Types
  import opened Slots
  import opened Fifo
  import opened FlashSteps
  import opened QueueModel
  import opened CrashSafety
  import opened Wear
  import opened PowerLoss
  import opened Starvation

  /** Appends and acknowledgments, no restart in between. */
  predicate WithinSession(calls: seq<Call>) {
    forall k :: 0 <= k < |calls| ==> !calls[k].CallRecover?
  }

  ghost function Play(q: Queue, calls: seq<Call>): (p: Queue)
    requires Consistent(q)
    ensures Consistent(p)
  {
    if calls == [] then q
    else
      var last := |calls| - 1;
      AfterConsistent(Play(q, calls[..last]), calls[last]);
      After(Play(q, calls[..last]), calls[last])
  }

  /** The record a call takes in, the record it lets go, and whether that was an acknowledgment. */
  ghost function Entering(q: Queue, call: Call): seq<Record>
    requires Consistent(q)
  {
    if Accepted(q, call) then [StoredRecord(Record(q.next, call.reading))] else []
  }

  ghost predicate Acknowledges(q: Queue, call: Call) {
    call.CallAcknowledge? && Contents(q.slots) != []
  }

  ghost predicate Drops(q: Queue, call: Call) {
    call.CallAppend? && q.depth == Capacity(q.slots) && Contents(q.slots) != []
  }

  ghost function Leaving(q: Queue, call: Call): seq<Record> {
    if Acknowledges(q, call) || Drops(q, call) then [Contents(q.slots)[0]] else []
  }

  ghost function Entered(q: Queue, calls: seq<Call>): seq<Record>
    requires Consistent(q)
  {
    if calls == [] then []
    else
      var last := |calls| - 1;
      Entered(q, calls[..last]) + Entering(Play(q, calls[..last]), calls[last])
  }

  ghost function Left(q: Queue, calls: seq<Call>): seq<Record>
    requires Consistent(q)
  {
    if calls == [] then []
    else
      var last := |calls| - 1;
      Left(q, calls[..last]) + Leaving(Play(q, calls[..last]), calls[last])
  }

  ghost function AcknowledgedCount(q: Queue, calls: seq<Call>): nat
    requires Consistent(q)
  {
    if calls == [] then 0
    else
      var last := |calls| - 1;
      AcknowledgedCount(q, calls[..last]) + (if Acknowledges(Play(q, calls[..last]), calls[last]) then 1 else 0)
  }

  lemma DroppedBy(q: Queue, m: Measurement)
    requires Good(q) && q.next + 1 < TWO_TO_THE_64 && q.dropped + 1 < TWO_TO_THE_64
    ensures Append(q, m).0.dropped == q.dropped + (if Drops(q, CallAppend(m)) then 1 else 0)
  {
    EvictEffect(q);
    AppendPlan(q, m);
    hide Append, Contents, Sound;
    EvictIs(q);
  }

  lemma OneCall(q: Queue, call: Call)
    requires Good(q) && q.next + 1 < TWO_TO_THE_64 && q.dropped + 1 < TWO_TO_THE_64 && !call.CallRecover?
    ensures var p := After(q, call);
            && Good(p) && q.next <= p.next <= q.next + 1
            && Contents(q.slots) + Entering(q, call) == Leaving(q, call) + Contents(p.slots)
            && p.dropped == q.dropped + (if Drops(q, call) then 1 else 0)
            && (call.CallAppend? ==> p.next == q.next + 1) && (call.CallAcknowledge? ==> p.next == q.next)
  {
    hide Sound, MaxSequence, Contents, Append, Acknowledge;
    match call
    case CallAcknowledge =>
      AcknowledgeEffect(q);
    case CallAppend(m) =>
      AppendMeaning(q, m);
      AppendEffect(q, m);
      EvictEffect(q);
      DroppedBy(q, m);
  }

  /** First in, first out over a whole session: what was waiting, followed by what was accepted, is
      what left, in that order, followed by what is waiting now. */
  lemma {:induction false} SessionIsFifo(q: Queue, calls: seq<Call>)
    requires Good(q) && WithinSession(calls)
    requires q.next + |calls| < TWO_TO_THE_64 && q.dropped + |calls| < TWO_TO_THE_64
    ensures var p := Play(q, calls);
            && Good(p) && q.next <= p.next <= q.next + |calls|
            && Contents(q.slots) + Entered(q, calls) == Left(q, calls) + Contents(p.slots)
            && p.dropped <= q.dropped + |calls|
            && |Left(q, calls)| == AcknowledgedCount(q, calls) + (p.dropped - q.dropped)
  {
    hide Sound, MaxSequence, Contents, Entering, Leaving, After, Acknowledges, Drops;
    if calls == [] {
      assert Contents(q.slots) + [] == [] + Contents(q.slots);
    } else {
      var last := |calls| - 1;
      var p, call := Play(q, calls[..last]), calls[last];
      SessionIsFifo(q, calls[..last]);
      OneCall(p, call);
      LeavingCount(p, call);
      Regroup(Contents(q.slots), Entered(q, calls[..last]), Entering(p, call),
              Left(q, calls[..last]), Contents(p.slots), Leaving(p, call), Contents(After(p, call).slots));
    }
  }

  lemma LeavingCount(q: Queue, call: Call)
    ensures |Leaving(q, call)| == (if Acknowledges(q, call) then 1 else 0) + (if Drops(q, call) then 1 else 0)
  {}

  lemma Regroup<T>(a: seq<T>, b: seq<T>, c: seq<T>, d: seq<T>, e: seq<T>, f: seq<T>, g: seq<T>)
    requires a + b == d + e && e + c == f + g
    ensures a + (b + c) == (d + f) + g
  {
    assert a + (b + c) == (a + b) + c == d + (e + c) == d + (f + g);
  }

  /** Nothing is unaccounted for: waiting, dropped and acknowledged records add up to what was
      recovered and what was accepted, even when appends were refused. */
  lemma Conservation(q: Queue, calls: seq<Call>)
    requires Good(q) && WithinSession(calls)
    requires q.next + |calls| < TWO_TO_THE_64 && q.dropped + |calls| < TWO_TO_THE_64
    ensures var p := Play(q, calls);
            p.depth + (p.dropped - q.dropped) + AcknowledgedCount(q, calls) == q.depth + |Entered(q, calls)|
  {
    hide Contents, Entered, Left, AcknowledgedCount;
    SessionIsFifo(q, calls);
    DepthIsLength(q);
    DepthIsLength(Play(q, calls));
    assert |Contents(q.slots) + Entered(q, calls)| == |Left(q, calls) + Contents(Play(q, calls).slots)|;
  }

  lemma DepthIsLength(q: Queue)
    requires Good(q)
    ensures q.depth == |Contents(q.slots)|
  {}

  // ----- starvation over runs

  predicate NoAcknowledgment(calls: seq<Call>) {
    forall k :: 0 <= k < |calls| ==> !calls[k].CallAcknowledge?
  }

  /** However many appends and restarts follow, the region stays as it is and every append is
      refused, until a record is acknowledged. */
  lemma {:induction false} StarvedUntilAcknowledged(q: Queue, calls: seq<Call>, m: Measurement)
    requires Starved(q) && NoAcknowledgment(calls) && q.next + |calls| + 1 < TWO_TO_THE_64
    ensures var p := Play(q, calls);
            && Starved(p) && p.slots == q.slots && p.next <= q.next + |calls|
            && Append(p, m).1 == Err(InvalidGeometry)
  {
    hide Sound, Reclaimed, MaxSequence, FirstErased, Append, Recover;
    if calls != [] {
      var last := |calls| - 1;
      StarvedUntilAcknowledged(q, calls[..last], m);
      StarvationLasts(Play(q, calls[..last]), calls[last]);
    }
    StarvationLasts(Play(q, calls), CallAppend(m));
  }

  predicate NoRestart(calls: seq<Call>) {
    forall k :: 0 <= k < |calls| ==> !calls[k].CallRecover?
  }

  /** A drained queue without an erased slot refuses every append until a restart. */
  lemma {:induction false} StuckUntilRestart(q: Queue, calls: seq<Call>, m: Measurement)
    requires Stuck(q) && NoRestart(calls) && q.next + |calls| + 1 < TWO_TO_THE_64
    ensures var p := Play(q, calls);
            && Stuck(p) && p.slots == q.slots && p.next <= q.next + |calls|
            && Append(p, m).1 == Err(InvalidGeometry)
  {
    hide Sound, MaxSequence, FirstErased, Append, Acknowledge;
    if calls != [] {
      var last := |calls| - 1;
      StuckUntilRestart(q, calls[..last], m);
      StuckLasts(Play(q, calls[..last]), calls[last]);
    }
    StuckLasts(Play(q, calls), CallAppend(m));
  }

  // ----- the window of sequences

  /** The waiting sequences are exactly [next - depth, next). */
  ghost predicate Window(q: Queue) {
    q.depth == |Contents(q.slots)| <= q.next
    && forall i :: 0 <= i < q.depth ==> Contents(q.slots)[i].sequence == q.next - q.depth + i
  }

  ghost predicate NeverRefused(q: Queue, calls: seq<Call>)
    requires Consistent(q)
  {
    calls == [] ||
    var last := |calls| - 1;
    && NeverRefused(q, calls[..last])
    && (calls[last].CallAppend? ==> Accepted(Play(q, calls[..last]), calls[last]))
  }

  lemma WindowMoves(q: Queue, call: Call)
    requires Good(q) && q.next + 1 < TWO_TO_THE_64 && q.dropped + 1 < TWO_TO_THE_64 && !call.CallRecover?
    requires Window(q) && (call.CallAppend? ==> Accepted(q, call))
    ensures Window(After(q, call))
  {
    hide Sound, MaxSequence, Append, Acknowledge;
    OneCall(q, call);
    var p := After(q, call);
    DepthIsLength(p);
    LeavingCount(q, call);
    assert Entering(q, call) == if call.CallAppend? then [StoredRecord(Record(q.next, call.reading))] else [];
    hide Contents, After, Leaving, Entering, Accepted;
    Slides(Contents(q.slots), Entering(q, call), Leaving(q, call), Contents(p.slots), q.next);
  }

  /** A window that loses its front and gains the next sequence is the window further on. */
  lemma Slides(before: seq<Record>, entering: seq<Record>, leaving: seq<Record>, after: seq<Record>, next: nat)
    requires before + entering == leaving + after && |before| <= next
    requires forall i :: 0 <= i < |before| ==> before[i].sequence == next - |before| + i
    requires |entering| <= 1 && (entering != [] ==> entering[0].sequence == next)
    ensures |after| <= next + |entering|
    ensures forall i :: 0 <= i < |after| ==> after[i].sequence == next + |entering| - |after| + i
  {
    assert |before| + |entering| == |leaving| + |after|;
    forall i | 0 <= i < |after| ensures after[i].sequence == next + |entering| - |after| + i {
      assert after[i] == (leaving + after)[|leaving| + i] == (before + entering)[|leaving| + i];
    }
  }

  /** While no append is refused, the waiting sequences stay one contiguous window that ends just
      below the next one; a refused append spends a sequence and breaks it. */
  lemma {:induction false} WindowStaysContiguous(q: Queue, calls: seq<Call>)
    requires Good(q) && WithinSession(calls) && Window(q) && NeverRefused(q, calls)
    requires q.next + |calls| < TWO_TO_THE_64 && q.dropped + |calls| < TWO_TO_THE_64
    ensures Window(Play(q, calls)) && Play(q, calls).depth <= Capacity(Play(q, calls).slots)
  {
    hide Window, Accepted, After, Contents;
    if calls != [] {
      var last := |calls| - 1;
      WindowStaysContiguous(q, calls[..last]);
      SessionIsFifo(q, calls[..last]);
      WindowMoves(Play(q, calls[..last]), calls[last]);
      SessionIsFifo(q, calls);
    }
  }

  // ----- and across restarts

  ghost predicate Consecutive(records: seq<Record>) {
    forall i :: 0 <= i < |records| ==> records[i].sequence == records[0].sequence + i
  }

  /** The newest decodable record is the last one waiting, if any is waiting. */
  lemma LastIsNewest(f: Region)
    requires Sound(f) && Contents(f) != []
    ensures Contents(f)[|Contents(f)| - 1].sequence == MaxSequence(f)
  {
    var all := Contents(f);
    var last := all[|all| - 1];
    NewestWaits(f);
    var n := Newest(f).value;
    ContentsAscend(f);
    ContentsAreActive(f, f[n].record);
    ContentsAreActive(f, last);
    hide Contents, OldestBelow, ActiveBelow;
    var k :| 0 <= k < |all| && all[k] == f[n].record;
    var j :| 0 <= j < |f| && f[j] == Active(last);
    assert f[j].Sequence() <= f[n].Sequence();
  }

  lemma ConsecutiveIsWindow(g: Region)
    requires Sound(g) && MaxSequence(g) + 1 < TWO_TO_THE_64 && Consecutive(Contents(g))
    ensures Window(Recover(g))
  {
    hide Sound, MaxSequence, Contents, Recover;
    RecoverEffect(g);
    DepthIsLength(Recover(g));
    if Contents(g) != [] {
      LastIsNewest(g);
    }
  }

  lemma WindowIsConsecutive(q: Queue, call: Call)
    requires Good(q) && Window(q) && q.next + 1 < TWO_TO_THE_64 && q.dropped + 1 < TWO_TO_THE_64
    ensures Consecutive(Contents(q.slots)) && Consecutive(Contents(After(q, call).slots))
    ensures Contents(q.slots) != [] ==> Consecutive(Contents(q.slots)[1..])
  {
    hide Sound, MaxSequence, Contents, Append, Acknowledge, ActiveCount;
    if call.CallRecover? {
      RecoverEffect(q.slots);
    } else {
      OneCall(q, call);
      hide After;
      var before, after := Contents(q.slots), Contents(After(q, call).slots);
      var gone := |Leaving(q, call)|;
      assert |before| + |Entering(q, call)| == gone + |after|;
      forall i | 0 <= i < |after| ensures after[i].sequence == after[0].sequence + i {
        assert after[i] == (Leaving(q, call) + after)[gone + i] == (before + Entering(q, call))[gone + i];
        assert after[0] == (Leaving(q, call) + after)[gone] == (before + Entering(q, call))[gone];
      }
    }
  }

  /** A power cut anywhere in an operation, and the recovery after it, leave a window again. */
  lemma WindowSurvivesPowerCut(q: Queue, call: Call, g: Region)
    requires Good(q) && Window(q) && Cut(q.slots, StepsOf(q, call), g)
    requires q.next + 1 < TWO_TO_THE_64 && q.dropped + 1 < TWO_TO_THE_64
    ensures Window(Recover(g))
  {
    hide Sound, MaxSequence, Cut, StepsOf, Contents, Window, After, Recover;
    WindowIsConsecutive(q, call);
    CrashRefinement(q, call, g);
    CutIsSound(q, call, g);
    ConsecutiveIsWindow(g);
  }
}
