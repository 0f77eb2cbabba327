/** The whole appliance as a step system: flash, RAM, the upload in progress and the broker.
    Publishing is at QoS 1 (section 4.3.2 of MQTT Version 5.0): a record is retired only after its
    PUBACK. The power may fail, and flash may report errors, between and inside any steps. */
module Delivery {
  import opened Types
  import opened Slots
  import opened Fifo
  import opened FlashSteps
  import opened QueueModel
  import opened CrashSafety
  import opened Wear

  /** What the upload task is doing with the record it peeked. */
  datatype Upload = Idle | Published(record: Record, delivered: bool)

  /** `next` is the sequence counter in RAM, absent until the queue has been recovered; `pending` is
      what the running queue operation has still to issue, `retiring` whether that operation retires
      an acknowledged record. The last four fields are history: every record whose commit byte was
      programmed, how many have left the queue, which of those were evicted, what the broker got. */
  datatype World = World(
    slots: Region,
    next: Option<u64>,
    pending: seq<Step>,
    retiring: bool,
    upload: Upload,
    committed: seq<Record>,
    gone: nat,
    evicted: set<nat>,
    broker: seq<Record>)

  ghost function QueueOf(w: World): Queue
    requires w.next.Some?
  {
    Queue(w.slots, ActiveCount(w.slots), w.next.value, 0)
  }

  predicate Resting(w: World) {
    w.next.Some? && w.pending == []
  }

  // ----- the steps

  /** Power comes up: the scan fixes the counter, and reclaiming begins. */
  ghost predicate Boot(w: World, v: World) {
    && w.next == None && w.pending == []
    && MaxSequence(w.slots) + 1 < TWO_TO_THE_64
    && v == w.(next := Some(NextAfter(w.slots)), pending := ReclaimSteps(w.slots), retiring := false)
  }

  /** A measurement is captured; the upload task is not between peek and retirement. */
  ghost predicate Capture(w: World, m: Measurement, v: World) {
    && Resting(w) && w.upload == Idle && w.next.value + 1 < TWO_TO_THE_64
    && v == w.(next := Some(w.next.value + 1), pending := AppendSteps(QueueOf(w), m), retiring := false)
  }

  ghost predicate Publish(w: World, v: World) {
    && Resting(w) && w.upload == Idle && Oldest(w.slots).Some?
    && v == w.(upload := Published(w.slots[Oldest(w.slots).value].record, false))
  }

  ghost predicate Deliver(w: World, v: World) {
    && w.upload.Published? && !w.upload.delivered
    && v == w.(upload := Published(w.upload.record, true), broker := w.broker + [w.upload.record])
  }

  /** PUBACK, which only answers a delivery; the oldest record is retired at once. */
  ghost predicate Puback(w: World, v: World) {
    && Resting(w) && w.upload.Published? && w.upload.delivered
    && v == w.(upload := Idle, pending := AcknowledgeSteps(w.slots), retiring := true)
  }

  /** Publish failed, PUBACK never came, or the awake budget ran out. */
  ghost predicate GiveUp(w: World, v: World) {
    w.upload.Published? && v == w.(upload := Idle)
  }

  /** The history that goes with a change of the flash by the first pending step. */
  ghost function Noted(w: World, g: Region): World
    requires w.pending != []
  {
    match w.pending[0]
    case Put(i, r) =>
      if i < |g| && g[i].Active? then w.(slots := g, committed := w.committed + [StoredRecord(r)]) else w.(slots := g)
    case Retire(i) =>
      if i < |g| && !g[i].Active? then
        w.(slots := g, gone := w.gone + 1, evicted := if w.retiring then w.evicted else w.evicted + {w.gone})
      else w.(slots := g)
    case Erase(_) => w.(slots := g)
  }

  ghost predicate FlashStep(w: World, v: World) {
    && w.pending != []
    && v == Noted(w, Do(w.slots, w.pending[0])).(pending := w.pending[1..])
  }

  /** The power fails, in the middle of the first pending step if there is one. */
  ghost predicate PowerCut(w: World, g: Region, v: World) {
    if w.pending == [] then v == w.(next := None, upload := Idle)
    else Torn(w.slots, w.pending[0], g) && v == Noted(w, g).(next := None, pending := [], upload := Idle)
  }

  /** Flash reports an error; the operation is abandoned, the session goes on. The sequence it
      would have used is spent or not, depending on how far it got. */
  ghost predicate StorageError(w: World, g: Region, n: u64, v: World) {
    && w.pending != [] && w.next.Some? && MaxSequence(g) < n <= w.next.value
    && Torn(w.slots, w.pending[0], g) && v == Noted(w, g).(pending := [], next := Some(n))
  }

  ghost predicate Next(w: World, v: World) {
    || Boot(w, v)
    || (exists m :: Capture(w, m, v))
    || Publish(w, v) || Deliver(w, v) || Puback(w, v) || GiveUp(w, v)
    || FlashStep(w, v)
    || (exists g :: PowerCut(w, g, v))
    || (exists g, n :: StorageError(w, g, n, v))
  }

  ghost predicate Start(w: World) {
    exists sectors: nat :: sectors >= 2 && w == World(Blank(sectors), None, [], false, Idle, [], 0, {}, [])
  }

  // ----- the invariant

  /** The history explains the flash: what was committed and has not left is what is waiting, in
      that order, and no committed record has a larger sequence than the flash still shows. */
  ghost predicate Explains(f: Region, committed: seq<Record>, gone: nat) {
    && Sound(f)
    && gone <= |committed|
    && committed[gone..] == Contents(f)
    && Ascending(committed)
    && AtMost(committed, MaxSequence(f))
  }

  ghost predicate AtMost(records: seq<Record>, bound: int) {
    forall k :: 0 <= k < |records| ==> records[k].sequence <= bound
  }

  ghost predicate Explained(w: World) {
    Explains(w.slots, w.committed, w.gone)
  }

  /** The counter is ahead of everything on flash and of the record on its way there. */
  ghost predicate Fresh(w: World) {
    && (w.next == None ==> w.pending == [])
    && (w.next.Some? ==> MaxSequence(w.slots) < w.next.value)
    && (w.next.Some? ==> forall k :: 0 <= k < |w.pending| && w.pending[k].Put? ==> w.pending[k].record.sequence < w.next.value)
    && AllEnabled(w.slots, w.pending)
  }

  ghost predicate Accounted(committed: seq<Record>, gone: nat, evicted: set<nat>, broker: seq<Record>) {
    forall k :: 0 <= k < gone && k < |committed| ==> committed[k] in broker || k in evicted
  }

  ghost predicate WasHead(committed: seq<Record>, gone: nat, r: Record) {
    exists k :: 0 <= k <= gone && k < |committed| && r == committed[k]
  }

  ghost predicate InOrder(broker: seq<Record>) {
    forall a, b :: 0 <= a < b < |broker| ==> broker[a].sequence <= broker[b].sequence
  }

  /** Everything that left was delivered or evicted; the broker saw heads of the queue, in order. */
  ghost predicate Delivered(w: World) {
    && Accounted(w.committed, w.gone, w.evicted, w.broker)
    && (forall r :: r in w.broker ==> WasHead(w.committed, w.gone, r))
    && InOrder(w.broker)
  }

  /** Between publish and retirement nothing else touches the queue. */
  ghost predicate Uploading(w: World) {
    && (w.upload.Published? ==>
          Resting(w) && w.gone < |w.committed| && w.upload.record == w.committed[w.gone]
          && (w.upload.delivered ==> w.upload.record in w.broker))
    && (w.retiring && w.pending != [] ==>
          OnlyErases(w.pending[1..]) && !w.pending[0].Put?
          && (w.pending[0].Retire? ==> w.gone < |w.committed| && w.committed[w.gone] in w.broker))
  }

  /** A record is evicted first thing in an append, and only from a full queue. */
  ghost predicate Evicting(w: World) {
    && (forall k :: 1 <= k < |w.pending| ==> !w.pending[k].Retire?)
    && (w.pending != [] && w.pending[0].Retire? && !w.retiring ==> ActiveCount(w.slots) == Capacity(w.slots))
  }

  ghost predicate Inv(w: World) {
    Explained(w) && Fresh(w) && Delivered(w) && Uploading(w) && Evicting(w)
  }

  /** The flash and its history depend on nothing else. */
  lemma HistoryCarries(w: World, v: World)
    requires w.slots == v.slots && w.committed == v.committed && w.gone == v.gone
    requires w.evicted == v.evicted && w.broker == v.broker
    ensures Explained(w) == Explained(v) && Delivered(w) == Delivered(v)
  {
    hide Explains, Accounted, WasHead, InOrder;
  }

  lemma StartInv(w: World)
    requires Start(w)
    ensures Inv(w)
  {
    var sectors: nat :| sectors >= 2 && w == World(Blank(sectors), None, [], false, Idle, [], 0, {}, []);
    BlankIsGood(sectors);
    assert Newest(w.slots) == None;
  }

  // ----- steps that leave the flash alone

  lemma CounterAhead(f: Region)
    requires MaxSequence(f) + 1 < TWO_TO_THE_64
    ensures MaxSequence(f) < NextAfter(f)
  {}

  lemma BootInv(w: World, v: World)
    requires Inv(w) && Boot(w, v)
    ensures Inv(v)
  {
    hide Explained, Delivered, MaxSequence, AllEnabled, ReclaimStepsFrom, NextAfter;
    ReclaimStepsRun(w.slots);
    ReclaimOnlyErases(w.slots, 0);
    HistoryCarries(w, v);
    CounterAhead(w.slots);
  }

  lemma AcknowledgeStepsShape(f: Region)
    ensures forall k :: 0 <= k < |AcknowledgeSteps(f)| ==>
              if k == 0 then AcknowledgeSteps(f)[k].Retire? else AcknowledgeSteps(f)[k].Erase?
  {
    if Oldest(f).Some? {
      ReclaimOnlyErases(RetireAt(f, Oldest(f).value), 0);
    }
    hide ReclaimSteps;
  }

  lemma PutStepsShape(f: Region, r: Record)
    ensures forall k :: 0 <= k < |PutSteps(f, r)| ==>
              !PutSteps(f, r)[k].Retire? && (PutSteps(f, r)[k].Put? ==> PutSteps(f, r)[k].record == r)
  {
    if FirstErased(f).Some? {
      ReclaimOnlyErases(Do(f, Put(FirstErased(f).value, r)), 0);
    }
    hide ReclaimSteps;
  }

  lemma AppendStepsShape(q: Queue, m: Measurement)
    requires Consistent(q)
    ensures forall k :: 0 <= k < |AppendSteps(q, m)| && AppendSteps(q, m)[k].Retire? ==> k == 0 && q.depth == Capacity(q.slots)
    ensures forall k :: 0 <= k < |AppendSteps(q, m)| && AppendSteps(q, m)[k].Put? ==> AppendSteps(q, m)[k].record.sequence == q.next
  {
    AcknowledgeStepsShape(q.slots);
    PutStepsShape(Evict(q).slots, Record(q.next, m));
    EvictIs(q);
    hide AcknowledgeSteps, PutSteps, Evict, EvictSteps, Consistent, Capacity;
    Joined(EvictSteps(q), PutSteps(Evict(q).slots, Record(q.next, m)));
  }

  lemma Joined<T>(a: seq<T>, b: seq<T>)
    ensures forall k :: 0 <= k < |a + b| ==> (a + b)[k] == if k < |a| then a[k] else b[k - |a|]
  {}

  lemma RestingIsGood(w: World)
    requires Inv(w) && w.next.Some?
    ensures Good(QueueOf(w))
  {
    hide Delivered, AllEnabled, Uploading, Evicting, Distinct, RetiredAreOlder, MaxSequence;
  }

  lemma CaptureInv(w: World, m: Measurement, v: World)
    requires Inv(w) && Capture(w, m, v)
    ensures Inv(v)
  {
    hide Explained, Delivered, AllEnabled, AppendSteps, MaxSequence, Good, ActiveCount;
    var q := QueueOf(w);
    RestingIsGood(w);
    AppendEnabled(q, m);
    AppendStepsShape(q, m);
    HistoryCarries(w, v);
  }

  lemma HeadIsOldest(w: World)
    requires Explained(w) && Oldest(w.slots).Some?
    ensures w.gone < |w.committed| && w.committed[w.gone] == w.slots[Oldest(w.slots).value].record
  {
    RetireDequeues(w.slots);
    assert w.committed[w.gone..][0] == w.committed[w.gone];
  }

  lemma PublishInv(w: World, v: World)
    requires Inv(w) && Publish(w, v)
    ensures Inv(v)
  {
    HeadIsOldest(w);
    HistoryCarries(w, v);
    hide Explained, Delivered, MaxSequence, AllEnabled;
  }

  /** The head is never older than anything delivered before it. */
  lemma DeliverInv(w: World, v: World)
    requires Inv(w) && Deliver(w, v)
    ensures Inv(v)
  {
    hide Sound, Contents, AllEnabled, MaxSequence;
    var head := w.committed[w.gone];
    forall a | 0 <= a < |w.broker| ensures w.broker[a].sequence <= head.sequence {
      assert w.broker[a] in w.broker;
      var k :| 0 <= k <= w.gone && k < |w.committed| && w.broker[a] == w.committed[k];
    }
    assert WasHead(v.committed, v.gone, head);
    assert InOrder(v.broker);
    assert Accounted(v.committed, v.gone, v.evicted, v.broker);
    assert v.broker[|w.broker|] == head;
  }

  lemma PubackInv(w: World, v: World)
    requires Inv(w) && Puback(w, v)
    ensures Inv(v)
  {
    hide Explained, Delivered, AllEnabled, AcknowledgeSteps, MaxSequence, ActiveCount, OldestBelow;
    AcknowledgeRuns(QueueOf(w));
    AcknowledgeStepsShape(w.slots);
    HistoryCarries(w, v);
  }

  // ----- steps that change the flash

  lemma NotedKeeps(w: World, g: Region)
    requires w.pending != []
    ensures var v := Noted(w, g);
            && v.slots == g && v.next == w.next && v.pending == w.pending && v.retiring == w.retiring
            && v.upload == w.upload && v.broker == w.broker
            && w.committed <= v.committed && w.gone <= v.gone <= w.gone + 1 && w.evicted <= v.evicted
            && (v.gone > w.gone ==> w.pending[0].Retire? && (w.retiring || w.gone in v.evicted))
  {}

  /** Completed or torn, the first pending step keeps the history in line with the flash. */
  lemma FlashExplained(w: World, g: Region)
    requires Explained(w) && Fresh(w) && w.pending != []
    requires g == Do(w.slots, w.pending[0]) || Torn(w.slots, w.pending[0], g)
    ensures Explained(Noted(w, g))
    ensures w.next.Some? ==> MaxSequence(g) < w.next.value
  {
    var f, step := w.slots, w.pending[0];
    assert Enabled(f, step);
    StepEffect(f, step, g);
    hide Sound, Contents, MaxSequence, AllEnabled, Do, Torn, Enabled;
    match step
    case Put(i, r) => PutExplained(w, i, r, g);
    case Retire(i) => RetireExplained(w, i, g);
    case Erase(s) =>
  }

  lemma AscendsWith(records: seq<Record>, r: Record, bound: int)
    requires Ascending(records) && AtMost(records, bound) && bound < r.sequence
    ensures Ascending(records + [r]) && AtMost(records + [r], r.sequence)
    ensures AtMost(records, r.sequence)
  {}

  lemma PutIsInside(f: Region, i: nat, r: Record)
    requires Enabled(f, Put(i, r))
    ensures i < |f|
  {}

  lemma DropAppend(records: seq<Record>, gone: nat, r: Record)
    requires gone <= |records|
    ensures (records + [r])[gone..] == records[gone..] + [r]
  {}

  lemma AtMostGrows(records: seq<Record>, bound: int, larger: int)
    requires AtMost(records, bound) && bound <= larger
    ensures AtMost(records, larger)
  {}

  lemma PutExplained(w: World, i: nat, r: Record, g: Region)
    requires Explained(w) && w.pending != [] && w.pending[0] == Put(i, r) && Enabled(w.slots, Put(i, r))
    requires g == Do(w.slots, Put(i, r)) || Torn(w.slots, Put(i, r), g)
    ensures Explained(Noted(w, g))
  {
    hide Sound, Contents, MaxSequence, FirstErased, Do, Torn, Enabled, Ascending, AtMost;
    StepEffect(w.slots, Put(i, r), g);
    PutHistory(w.slots, i, r, g);
    PutIsInside(w.slots, i, r);
    if g[i].Active? {
      AscendsWith(w.committed, StoredRecord(r), MaxSequence(w.slots));
      DropAppend(w.committed, w.gone, StoredRecord(r));
    } else {
      assert Contents(w.slots) + [] == Contents(w.slots);
      AtMostGrows(w.committed, MaxSequence(w.slots), MaxSequence(g));
    }
  }

  lemma RetireExplained(w: World, i: nat, g: Region)
    requires Explained(w) && w.pending != [] && w.pending[0] == Retire(i) && Enabled(w.slots, Retire(i))
    requires g == Do(w.slots, Retire(i)) || Torn(w.slots, Retire(i), g)
    ensures Explained(Noted(w, g))
  {
    var v := Noted(w, g);
    StepEffect(w.slots, Retire(i), g);
    RetireHistory(w.slots, i, g);
    hide Sound, Contents, MaxSequence, Do, Torn;
    if !g[i].Active? {
      assert v.committed[v.gone..] == w.committed[w.gone..][1..];
    }
  }

  lemma PutHistory(f: Region, i: nat, r: Record, g: Region)
    requires Sound(f) && Enabled(f, Put(i, r)) && (g == Do(f, Put(i, r)) || Torn(f, Put(i, r), g))
    ensures i < |f| == |g|
    ensures Contents(g) == Contents(f) + if g[i].Active? then [StoredRecord(r)] else []
    ensures g[i].Active? ==> MaxSequence(g) == r.sequence
    ensures MaxSequence(f) < r.sequence
  {
    hide Contents, Sound;
    PutKeepsSound(f, i, r);
    if g == f[i := Corrupt] {
      CorruptLoses(f, i);
      LosingKeepsSound(f, g);
    }
  }

  lemma RetireHistory(f: Region, i: nat, g: Region)
    requires Sound(f) && Enabled(f, Retire(i)) && (g == Do(f, Retire(i)) || Torn(f, Retire(i), g))
    ensures f[i].Active? && Contents(f) != []
    ensures Contents(g) == if g[i].Active? then Contents(f) else Contents(f)[1..]
  {
    RetireKeepsSound(f, i);
  }

  lemma FlashDelivered(w: World, g: Region)
    requires Delivered(w) && Uploading(w) && w.gone <= |w.committed| && w.pending != []
    requires Noted(w, g).gone <= |Noted(w, g).committed|
    ensures Delivered(Noted(w, g))
  {
    var v := Noted(w, g);
    NotedKeeps(w, g);
    hide Noted;
    forall r | r in v.broker ensures WasHead(v.committed, v.gone, r) {
      assert WasHead(w.committed, w.gone, r);
      var k :| 0 <= k <= w.gone && k < |w.committed| && r == w.committed[k];
      assert v.committed[k] == r;
    }
    hide WasHead;
    forall k | 0 <= k < v.gone && k < |v.committed| ensures v.committed[k] in v.broker || k in v.evicted {
      if k < w.gone && k < |w.committed| {
        assert w.committed[k] in w.broker || k in w.evicted;
      } else {
        assert w.retiring ==> w.committed[w.gone] in w.broker;
      }
    }
  }

  lemma FlashStepInv(w: World, v: World)
    requires Inv(w) && FlashStep(w, v)
    ensures Inv(v)
  {
    var g := Do(w.slots, w.pending[0]);
    FlashExplained(w, g);
    FlashDelivered(w, g);
    NotedKeeps(w, g);
    HistoryCarries(Noted(w, g), v);
    hide Noted, Explained, Delivered, MaxSequence, Do;
    StepsGoOn(w, v);
    hide Fresh, Uploading, Evicting;
  }

  /** What is still pending stays in order. */
  lemma StepsGoOn(w: World, v: World)
    requires Fresh(w) && Uploading(w) && Evicting(w) && w.pending != []
    requires v.pending == w.pending[1..] && v.slots == Do(w.slots, w.pending[0])
    requires v.next == w.next && v.upload == w.upload && v.retiring == w.retiring
    requires v.next.Some? ==> MaxSequence(v.slots) < v.next.value
    ensures Fresh(v) && Uploading(v) && Evicting(v)
  {
    assert AllEnabled(v.slots, v.pending);
    assert forall k :: 0 <= k < |v.pending| ==> v.pending[k] == w.pending[k + 1];
    hide AllEnabled, MaxSequence, Do;
  }

  lemma InterruptedInv(w: World, g: Region, n: u64, v: World)
    requires Inv(w) && (PowerCut(w, g, v) || StorageError(w, g, n, v))
    ensures Inv(v)
  {
    if w.pending == [] {
      HistoryCarries(w, v);
      hide Explained, Delivered, MaxSequence;
    } else {
      CutShort(w, g, v);
    }
  }

  lemma CutShort(w: World, g: Region, v: World)
    requires Inv(w) && w.pending != [] && Torn(w.slots, w.pending[0], g)
    requires v == Noted(w, g).(next := v.next, pending := [], upload := Idle)
    requires v.next.Some? ==> MaxSequence(g) < v.next.value
    ensures Inv(v)
  {
    FlashExplained(w, g);
    FlashDelivered(w, g);
    NotedKeeps(w, g);
    HistoryCarries(Noted(w, g), v);
    hide Noted, Explained, Delivered, Fresh, MaxSequence, Do, Torn, Enabled, OnlyErases;
    assert Uploading(v) && Evicting(v);
    NothingPending(v);
  }

  lemma NothingPending(v: World)
    requires v.pending == [] && (v.next.Some? ==> MaxSequence(v.slots) < v.next.value)
    ensures Fresh(v)
  {
    hide MaxSequence;
  }

  lemma NextInv(w: World, v: World)
    requires Inv(w) && Next(w, v)
    ensures Inv(v)
  {
    hide Inv, Boot, Capture, Publish, Deliver, Puback, FlashStep, PowerCut, StorageError;
    if Boot(w, v) {
      BootInv(w, v);
    } else if exists m :: Capture(w, m, v) {
      var m :| Capture(w, m, v);
      CaptureInv(w, m, v);
    } else if Publish(w, v) {
      PublishInv(w, v);
    } else if Deliver(w, v) {
      DeliverInv(w, v);
    } else if Puback(w, v) {
      PubackInv(w, v);
    } else if GiveUp(w, v) {
      GiveUpInv(w, v);
    } else if FlashStep(w, v) {
      FlashStepInv(w, v);
    } else if exists g :: PowerCut(w, g, v) {
      var g :| PowerCut(w, g, v);
      InterruptedInv(w, g, 0, v);
    } else {
      var g, n :| StorageError(w, g, n, v);
      InterruptedInv(w, g, n, v);
    }
  }

  lemma GiveUpInv(w: World, v: World)
    requires Inv(w) && GiveUp(w, v)
    ensures Inv(v)
  {
    HistoryCarries(w, v);
    hide Explained, Delivered, AllEnabled, MaxSequence;
  }

  // ----- whole runs

  ghost predicate IsRun(run: seq<World>) {
    run != [] && Start(run[0]) && forall k :: 0 <= k < |run| - 1 ==> Next(run[k], run[k + 1])
  }

  lemma {:induction false} RunInv(run: seq<World>, k: nat)
    requires IsRun(run) && k < |run|
    ensures Inv(run[k])
  {
    hide Start, Next, Inv;
    if k == 0 {
      StartInv(run[0]);
    } else {
      RunInv(run, k - 1);
      assert Next(run[k - 1], run[k - 1 + 1]);
      NextInv(run[k - 1], run[k]);
    }
  }

  /** History is only ever added to, and the largest sequence on flash never falls. */
  ghost predicate Grows(w: World, v: World) {
    && w.committed <= v.committed && w.gone <= v.gone && w.broker <= v.broker && w.evicted <= v.evicted
    && MaxSequence(w.slots) <= MaxSequence(v.slots)
  }

  lemma FlashGrows(w: World, g: Region)
    requires Inv(w) && w.pending != [] && (g == Do(w.slots, w.pending[0]) || Torn(w.slots, w.pending[0], g))
    ensures MaxSequence(w.slots) <= MaxSequence(g)
  {
    hide MaxSequence, Do, Torn;
    StepEffect(w.slots, w.pending[0], g);
  }

  lemma NextGrows(w: World, v: World)
    requires Inv(w) && Next(w, v)
    ensures Grows(w, v)
  {
    hide Inv, MaxSequence, Noted, Torn, Do;
    if FlashStep(w, v) {
      NotedKeeps(w, Do(w.slots, w.pending[0]));
      FlashGrows(w, Do(w.slots, w.pending[0]));
    } else if exists g :: PowerCut(w, g, v) {
      var g :| PowerCut(w, g, v);
      if w.pending != [] {
        NotedKeeps(w, g);
        FlashGrows(w, g);
      }
    } else if exists g, n :: StorageError(w, g, n, v) {
      var g, n :| StorageError(w, g, n, v);
      NotedKeeps(w, g);
      FlashGrows(w, g);
    }
  }

  lemma {:induction false} RunGrows(run: seq<World>, j: nat, k: nat)
    requires IsRun(run) && j <= k < |run|
    ensures Grows(run[j], run[k])
    decreases k
  {
    hide Start, Next, Inv, MaxSequence;
    if j < k {
      RunGrows(run, j, k - 1);
      RunInv(run, k - 1);
      assert Next(run[k - 1], run[k - 1 + 1]);
      NextGrows(run[k - 1], run[k]);
    }
  }

  /** Sequences identify records for ever: across any number of power cuts and recoveries, also
      with an empty queue, no two committed records share one, and whenever the queue is up its
      counter exceeds every sequence committed so far. */
  lemma SequencesNeverReused(run: seq<World>, k: nat)
    requires IsRun(run) && k < |run|
    ensures Ascending(run[k].committed)
    ensures forall c :: 0 <= c < |run[k].committed| && run[k].next.Some? ==>
              run[k].committed[c].sequence < run[k].next.value
  {
    RunInv(run, k);
    hide IsRun, MaxSequence, AllEnabled;
  }

  /** Nothing committed is lost, reordered or altered: what was ever committed is what has left,
      followed by exactly what a recovery would find waiting now. */
  lemma NothingLost(run: seq<World>, k: nat)
    requires IsRun(run) && k < |run|
    ensures var w := run[k];
            w.gone <= |w.committed| && w.committed == w.committed[..w.gone] + Contents(w.slots)
            && Contents(Reclaim(w.slots)) == Contents(w.slots)
  {
    hide IsRun, MaxSequence, AllEnabled, Sound, Contents, Reclaim, Fresh, Delivered, Uploading, Evicting;
    RunInv(run, k);
    ReclaimEffect(run[k].slots);
  }

  lemma EvictionIsTheHead(w: World, g: Region)
    requires Inv(w) && w.pending != [] && (g == Do(w.slots, w.pending[0]) || Torn(w.slots, w.pending[0], g))
    requires Noted(w, g).evicted != w.evicted
    ensures ActiveCount(w.slots) == Capacity(w.slots) && w.gone < |w.committed|
    ensures Noted(w, g).evicted == w.evicted + {w.gone} && Noted(w, g).gone == w.gone + 1
  {
    assert Enabled(w.slots, w.pending[0]);
    RetireHistory(w.slots, w.pending[0].slot, g);
    hide Sound, Contents, MaxSequence, Torn, Do;
  }

  /** Only a full queue loses a record that was not acknowledged. */
  lemma EvictedOnlyWhenFull(w: World, v: World)
    requires Inv(w) && Next(w, v) && v.evicted != w.evicted
    ensures ActiveCount(w.slots) == Capacity(w.slots)
    ensures w.gone < |w.committed| && v.evicted == w.evicted + {w.gone} && v.gone == w.gone + 1
  {
    hide Inv, Torn, Do, ActiveCount;
    if FlashStep(w, v) {
      EvictionIsTheHead(w, Do(w.slots, w.pending[0]));
    } else if exists g :: PowerCut(w, g, v) {
      var g :| PowerCut(w, g, v);
      EvictionIsTheHead(w, g);
    } else {
      var g, n :| StorageError(w, g, n, v);
      EvictionIsTheHead(w, g);
    }
  }

  // ----- what a consumer makes of the broker's log

  /** Keep the first of each group of equal sequences. */
  function Deduplicated(log: seq<Record>): seq<Record> {
    if log == [] then []
    else
      var last := |log| - 1;
      if last > 0 && log[last - 1].sequence == log[last].sequence then Deduplicated(log[..last])
      else Deduplicated(log[..last]) + [log[last]]
  }

  lemma AscendsAfter(records: seq<Record>, r: Record)
    requires Ascending(records) && records != [] && records[|records| - 1].sequence < r.sequence
    ensures Ascending(records + [r])
  {
    assert forall i :: 0 <= i < |records| ==> records[i].sequence <= records[|records| - 1].sequence;
  }

  lemma {:induction false} DeduplicatedAscends(log: seq<Record>)
    requires InOrder(log)
    ensures Ascending(Deduplicated(log))
    ensures log != [] ==> Deduplicated(log) != []
                          && Deduplicated(log)[|Deduplicated(log)| - 1].sequence == log[|log| - 1].sequence
  {
    if log != [] {
      var rest, last := log[..|log| - 1], log[|log| - 1];
      DeduplicatedAscends(rest);
      if rest != [] {
        assert rest[|rest| - 1] == log[|log| - 2];
        assert rest[|rest| - 1].sequence <= last.sequence;
        if rest[|rest| - 1].sequence < last.sequence {
          AscendsAfter(Deduplicated(rest), last);
        }
      }
    }
  }

  lemma {:induction false} DeduplicatedKeeps(log: seq<Record>, r: Record)
    requires forall a, b :: 0 <= a < |log| && 0 <= b < |log| && log[a].sequence == log[b].sequence ==> log[a] == log[b]
    ensures r in Deduplicated(log) <==> r in log
  {
    if log != [] {
      var last := |log| - 1;
      DeduplicatedKeeps(log[..last], r);
      assert log == log[..last] + [log[last]];
      if last > 0 && log[last - 1].sequence == log[last].sequence {
        assert log[last] == log[last - 1] == log[..last][last - 1];
      }
    }
  }

  lemma SameSequenceSameRecord(w: World, a: nat, b: nat)
    requires Inv(w) && a < |w.broker| && b < |w.broker| && w.broker[a].sequence == w.broker[b].sequence
    ensures w.broker[a] == w.broker[b]
  {
    hide Sound, Contents, MaxSequence, AllEnabled;
    assert WasHead(w.committed, w.gone, w.broker[a]) && WasHead(w.committed, w.gone, w.broker[b]);
    var j :| 0 <= j <= w.gone && j < |w.committed| && w.broker[a] == w.committed[j];
    var k :| 0 <= k <= w.gone && k < |w.committed| && w.broker[b] == w.committed[k];
  }

  /** At least once, in order, over whole runs: every record that left the queue was delivered or
      evicted; the broker's sequences never fall; and a consumer that drops repeated sequences sees
      each delivered record exactly once, in order of capture. */
  lemma AtLeastOnceInOrder(run: seq<World>, k: nat)
    requires IsRun(run) && k < |run|
    ensures var w := run[k]; var seen := Deduplicated(w.broker);
            && (forall c :: 0 <= c < w.gone && c < |w.committed| ==> w.committed[c] in seen || c in w.evicted)
            && InOrder(w.broker) && Ascending(seen)
            && (forall r :: r in seen <==> r in w.broker)
            && (forall r :: r in seen ==> r in w.committed)
  {
    RunInv(run, k);
    hide IsRun;
    var w := run[k];
    DeduplicatedAscends(w.broker);
    forall a, b | 0 <= a < |w.broker| && 0 <= b < |w.broker| && w.broker[a].sequence == w.broker[b].sequence
      ensures w.broker[a] == w.broker[b]
    {
      SameSequenceSameRecord(w, a, b);
    }
    hide Explains, Fresh, Deduplicated, Ascending, Uploading;
    forall r ensures r in Deduplicated(w.broker) <==> r in w.broker {
      DeduplicatedKeeps(w.broker, r);
    }
    forall r | r in w.broker ensures r in w.committed {
      assert WasHead(w.committed, w.gone, r);
    }
  }
}
