/** The upload task over the real queue: capture before any network use, then drain it head first. */
module Upload {
  import opened Types
  import opened Slots
  import opened Fifo
  import opened FlashSteps
  import opened QueueModel
  import opened CrashSafety
  import opened Session
  import opened NorFlash
  import opened FlashImage
  import opened PowerLoss
  import Q = FlashQueue

  /** The broker as the appliance meets it: a publication may get through or not, and a PUBACK only
      answers one that did. Publications without a PUBACK are counted. */
  class Broker {
    var log: seq<Record>
    ghost var unanswered: nat

    constructor ()
      ensures log == [] && unanswered == 0
    {
      log, unanswered := [], 0;
    }

    method Publish(record: Record) returns (acknowledged: bool)
      modifies this
      ensures log == old(log) || log == old(log) + [record]
      ensures acknowledged ==> log == old(log) + [record]
      ensures unanswered == old(unanswered) + if acknowledged then 0 else 1
    {
      var arrives: bool := *;
      if arrives {
        log := log + [record];
      }
      var answered: bool := *;
      acknowledged := arrives && answered;
      if !acknowledged {
        unanswered := unanswered + 1;
      }
    }
  }

  /** The JSON encoder, whose buffer may be too small. Failures are counted. */
  class Encoder {
    ghost var failures: nat

    constructor ()
      ensures failures == 0
    {
      failures := 0;
    }

    method Encode(record: Record) returns (ok: bool)
      modifies this
      ensures failures == old(failures) + if ok then 0 else 1
    {
      ok := *;
      if !ok {
        failures := failures + 1;
      }
    }
  }

  /** Nothing outside the queue's region has changed. */
  twostate predicate OnlyRegion(queue: Q.FlashQueue)
    reads queue.flash.cells
  {
    SameOutside(old(queue.flash.cells[..]), queue.flash.cells[..], queue.start, queue.start + queue.length)
  }

  lemma AppendIffSlot(q: Queue, m: Measurement)
    requires Consistent(q)
    ensures Append(q, m).1.Ok? <==> FirstErased(Evict(q).slots).Some?
  {
    hide Evict, FirstErased;
    AppendPlan(q, m);
  }

  lemma NothingChanged(memory: Memory, start: nat, end: nat)
    ensures SameOutside(memory, memory, start, end)
  {}

  lemma OutsideThen(a: Memory, b: Memory, c: Memory, start: nat, end: nat)
    requires SameOutside(a, b, start, end) && SameOutside(b, c, start, end)
    ensures SameOutside(a, c, start, end)
  {}

  lemma QueueInside(start: nat, slots: nat, before: Trace, q: Queue, call: Call, after: Trace)
    requires Fits(before.memory, start, slots) && start % ERASE_SIZE == 0
    requires View(before.memory, start, slots) == q.slots && Good(q)
    requires IssuedSteps(start, before, StepsOf(q, call), after) || CutShort(start, before, StepsOf(q, call), after)
    ensures SameOutside(before.memory, after.memory, start, start + 256 * slots)
  {
    hide View, Good, StepsOf, LowerAll, CutOps, ApplyAll, SameOutside;
    NothingOutside(before.memory, start, slots, q, call, after.memory);
  }

  /** Stores the sample if there is a clock to timestamp it with. While the flash reports no error the
      queue becomes what an append makes of it, and only a region without an erased slot can refuse
      the sample. An error loses the sample at most and, if the queue was full, its oldest record; one
      after the commit leaves the sample queued although it is reported. */
  method CaptureAndEnqueue(queue: Q.FlashQueue, hasClock: bool, sample: Option<Measurement>) returns (stored: bool)
    requires queue.Valid() && Good(queue.Model()) && queue.nextSequence + 1 < TWO_TO_THE_64
    modifies queue, queue.flash, queue.flash.cells
    ensures queue.Valid() && Good(queue.Model()) && OnlyRegion(queue)
    ensures old(queue.flash.faults) <= queue.flash.faults
    ensures !hasClock || sample == None ==>
              !stored && queue.Model() == old(queue.Model()) && queue.flash.Now() == old(queue.flash.Now())
              && queue.flash.faults == old(queue.flash.faults)
    ensures hasClock && sample.Some? && queue.flash.faults == old(queue.flash.faults) ==>
              && queue.Model() == Append(old(queue.Model()), sample.value).0
              && (stored <==> FirstErased(Evict(old(queue.Model())).slots).Some?)
    ensures queue.flash.faults > old(queue.flash.faults) ==> !stored
    ensures stored ==> sample.Some? && Contents(queue.Region())
                       == old(Remaining(queue.Model())) + [StoredRecord(Record(old(queue.nextSequence), sample.value))]
    ensures hasClock && sample.Some? && !stored ==>
              || Contents(queue.Region()) == old(Contents(queue.Region()))
              || Contents(queue.Region()) == old(Remaining(queue.Model()))
              || Contents(queue.Region())
                 == old(Remaining(queue.Model())) + [StoredRecord(Record(old(queue.nextSequence), sample.value))]
  {
    hide View, Contents, Good, Remaining, Cut, Append, AppendSteps, IssuedSteps, CutShort, Evict, FirstErased;
    hide AppendFailed, SameOutside;
    if !hasClock || sample == None {
      NothingChanged(queue.flash.cells[..], queue.start, queue.start + queue.length);
      return false;
    }
    ghost var q, first := queue.Model(), queue.flash.Now();
    AppendIffSlot(q, sample.value);
    var appended := queue.Append(sample.value);
    stored := appended.Ok?;
    if !stored {
      AppendLeaves(q, sample.value, queue.Region());
    }
    Q.GeometryFits(queue.flash.cells.Length, queue.start, queue.length, queue.flash.writeSize, queue.flash.eraseSize);
    QueueInside(queue.start, queue.SlotCount(), first, q, CallAppend(sample.value), queue.flash.Now());
  }

  /** PUBACK came but retirement failed: the record is still the head, or it is gone. */
  lemma AcknowledgeFailed(q: Queue, g: Slots.Region)
    requires Good(q) && Cut(q.slots, AcknowledgeSteps(q.slots), g)
    ensures Contents(g) == Contents(q.slots)
            || (Contents(q.slots) != [] && Contents(g) == Contents(q.slots)[1..])
  {
    hide Cut, Contents;
    AcknowledgeCut(q, g);
    AcknowledgeEffect(q);
  }

  lemma Shift<T>(all: seq<T>, done: seq<T>, head: T, gone: bool, before: seq<T>, after: seq<T>)
    requires all == done + before && before == (if gone then [head] else []) + after
    ensures gone ==> all == done + [head] + after && |after| < |before|
    ensures !gone ==> after == before
  {}

  /** After PUBACK. A reported error leaves the record at the head, or gone. */
  method RetireHead(queue: Q.FlashQueue, ghost record: Record) returns (ok: bool, ghost gone: bool)
    requires queue.Valid() && Good(queue.Model())
    requires Contents(queue.Region()) != [] && Contents(queue.Region())[0] == record
    modifies queue, queue.flash, queue.flash.cells
    ensures queue.Valid() && Good(queue.Model()) && OnlyRegion(queue)
    ensures queue.nextSequence == old(queue.nextSequence) && queue.dropped == old(queue.dropped)
    ensures ok ==> gone && queue.Model() == Acknowledge(old(queue.Model())).0
    ensures queue.flash.faults == old(queue.flash.faults) + if ok then 0 else 1
    ensures old(Contents(queue.Region())) == (if gone then [record] else []) + Contents(queue.Region())
  {
    hide View, Contents, Good, Cut, Acknowledge, AcknowledgeSteps, IssuedSteps, CutShort, SameOutside;
    ghost var q, first, waiting := queue.Model(), queue.flash.Now(), Contents(queue.Region());
    var result := queue.AcknowledgeOldest();
    ok := result.Ok?;
    gone := ok;
    if !ok {
      AcknowledgeFailed(q, queue.Region());
      gone := Contents(queue.Region()) != waiting;
      assert gone ==> waiting == [record] + waiting[1..];
    }
    Q.GeometryFits(queue.flash.cells.Length, queue.start, queue.length, queue.flash.writeSize, queue.flash.eraseSize);
    QueueInside(queue.start, queue.SlotCount(), first, q, CallAcknowledge, queue.flash.Now());
  }

  /** One pass for the head: encode, publish, and retire it once it is acknowledged. */
  method HandOver(queue: Q.FlashQueue, broker: Broker, encoder: Encoder, record: Record) returns (ok: bool, ghost gone: bool)
    requires queue.Valid() && Good(queue.Model())
    requires Contents(queue.Region()) != [] && Contents(queue.Region())[0] == record
    modifies queue, queue.flash, queue.flash.cells, broker, encoder
    ensures queue.Valid() && Good(queue.Model()) && OnlyRegion(queue)
    ensures queue.nextSequence == old(queue.nextSequence) && queue.dropped == old(queue.dropped)
    ensures ok ==> gone && queue.Model() == Acknowledge(old(queue.Model())).0
    ensures queue.flash.faults >= old(queue.flash.faults) && broker.unanswered >= old(broker.unanswered)
    ensures encoder.failures >= old(encoder.failures)
    ensures queue.flash.faults + broker.unanswered + encoder.failures
            == old(queue.flash.faults + broker.unanswered + encoder.failures) + if ok then 0 else 1
    ensures old(Contents(queue.Region())) == (if gone then [record] else []) + Contents(queue.Region())
    ensures if gone then broker.log == old(broker.log) + [record]
            else broker.log == old(broker.log) || broker.log == old(broker.log) + [record]
  {
    hide View, Contents, Good, SameOutside, Acknowledge;
    NothingChanged(queue.flash.cells[..], queue.start, queue.start + queue.length);
    gone := false;
    ok := encoder.Encode(record);
    if ok {
      ok := broker.Publish(record);
      if ok {
        ok, gone := RetireHead(queue, record);
      }
    }
  }

  function Acknowledgments(n: nat): seq<Call> {
    seq(n, _ => CallAcknowledge)
  }

  lemma NoCalls(q: Queue)
    requires Consistent(q)
    ensures Play(q, Acknowledgments(0)) == q
  {}

  lemma OneMoreAcknowledgment(q: Queue, n: nat)
    requires Consistent(q)
    ensures Play(q, Acknowledgments(n + 1)) == Acknowledge(Play(q, Acknowledgments(n))).0
  {
    assert Acknowledgments(n + 1)[..n] == Acknowledgments(n);
    hide Acknowledge;
  }

  /** The records retired so far have left the queue `q` from the front. */
  ghost predicate Drained(q: Queue, retired: seq<Record>, p: Queue)
    requires Consistent(q)
  {
    && p == Play(q, Acknowledgments(|retired|)) && p.next == q.next && p.dropped == q.dropped
    && Contents(q.slots) == retired + Contents(p.slots)
  }

  lemma NoneDrained(q: Queue)
    requires Consistent(q)
    ensures Drained(q, [], q)
  {
    hide Contents;
    NoCalls(q);
    assert [] + Contents(q.slots) == Contents(q.slots);
  }

  lemma OneMoreDrained(q: Queue, retired: seq<Record>, p: Queue, record: Record, r: Queue)
    requires Consistent(q) && Drained(q, retired, p) && Contents(p.slots) == [record] + Contents(r.slots)
    requires Consistent(p) && r == Acknowledge(p).0 && r.next == p.next && r.dropped == p.dropped
    ensures Drained(q, retired + [record], r)
  {
    hide Contents, Play, Acknowledge;
    OneMoreAcknowledgment(q, |retired|);
    assert retired + ([record] + Contents(r.slots)) == retired + [record] + Contents(r.slots);
  }

  lemma DrainedSoFar(q: Queue, retired: seq<Record>, p: Queue)
    requires Consistent(q) && Drained(q, retired, p)
    ensures Contents(q.slots) == retired + Contents(p.slots) && p.next == q.next && p.dropped == q.dropped
  {}

  lemma AllDrained(q: Queue, retired: seq<Record>, p: Queue)
    requires Good(q) && Drained(q, retired, p) && Good(p) && Contents(p.slots) == []
    ensures retired == Contents(q.slots) && p.depth == 0 && p == Play(q, Acknowledgments(q.depth))
  {
    hide Contents, Play;
    DepthIsLength(q);
    DepthIsLength(p);
  }

  /** The peeked record is the one retired, since nothing is appended in between; every pass that
      succeeds shortens the queue, and the loop returns true only on an empty one. It returns false
      exactly when the flash, the broker or the encoder let it down, and then at once. */
  method DrainQueue(queue: Q.FlashQueue, broker: Broker, encoder: Encoder) returns (complete: bool, ghost retired: seq<Record>)
    requires queue.Valid() && Good(queue.Model())
    modifies queue, queue.flash, queue.flash.cells, broker, encoder
    ensures queue.Valid() && Good(queue.Model()) && OnlyRegion(queue)
    ensures queue.nextSequence == old(queue.nextSequence) && queue.dropped == old(queue.dropped)
    ensures queue.flash.faults >= old(queue.flash.faults) && broker.unanswered >= old(broker.unanswered)
    ensures encoder.failures >= old(encoder.failures)
    ensures queue.flash.faults + broker.unanswered + encoder.failures
            == old(queue.flash.faults + broker.unanswered + encoder.failures) + if complete then 0 else 1
    ensures complete ==> Contents(queue.Region()) == [] && queue.depth == 0
    ensures complete ==> broker.log == old(broker.log) + old(Contents(queue.Region()))
    ensures complete ==> queue.Model() == Play(old(queue.Model()), Acknowledgments(old(queue.depth)))
    ensures old(Contents(queue.Region())) == retired + Contents(queue.Region())
    ensures broker.log == old(broker.log) + retired
            || (Contents(queue.Region()) != [] && broker.log == old(broker.log) + retired + [Contents(queue.Region())[0]])
  {
    hide View, Contents, Good, Play, SameOutside, Acknowledge, Drained;
    ghost var q, memory := queue.Model(), queue.flash.cells[..];
    NothingChanged(memory, queue.start, queue.start + queue.length);
    retired := [];
    NoneDrained(q);
    while true
      invariant queue.Valid() && Good(queue.Model()) && Drained(q, retired, queue.Model())
      invariant SameOutside(memory, queue.flash.cells[..], queue.start, queue.start + queue.length)
      invariant queue.flash.faults == old(queue.flash.faults) && broker.unanswered == old(broker.unanswered)
      invariant encoder.failures == old(encoder.failures)
      invariant broker.log == old(broker.log) + retired
      decreases |Contents(queue.Region())|
    {
      DrainedSoFar(q, retired, queue.Model());
      var peeked := queue.PeekOldest();
      if peeked.Err? {
        return false, retired;
      }
      if peeked.value == None {
        AllDrained(q, retired, queue.Model());
        return true, retired;
      }
      var record := peeked.value.value;
      ghost var p, waiting, now := queue.Model(), Contents(queue.Region()), queue.flash.cells[..];
      var ok, gone := HandOver(queue, broker, encoder, record);
      Shift(Contents(q.slots), retired, record, gone, waiting, Contents(queue.Region()));
      OutsideThen(memory, now, queue.flash.cells[..], queue.start, queue.start + queue.length);
      if ok {
        OneMoreDrained(q, retired, p, record, queue.Model());
      }
      if gone {
        retired := retired + [record];
      }
      if !ok {
        return false, retired;
      }
    }
  }
}
