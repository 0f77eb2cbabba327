/** NOR flash: programming only clears bits, erasing sets a whole range, and either may stop short. */
module NorFlash {
  import opened Bytes
  import opened RecordCodec
  import opened Slots
  import opened Types

  const ERASE_SIZE := 4096

  type Memory = seq<Byte>

  datatype FlashOp = Program(address: nat, data: seq<Byte>) | EraseRange(from: nat, to: nat)

  /** NOR programming clears the bits that are clear in the data. */
  function Programmed(cell: Byte, data: Byte): Byte { cell & data }

  predicate OnlyClears(cell: Byte, data: Byte) { cell | data == cell }

  function Apply(memory: Memory, op: FlashOp): (after: Memory)
    ensures |after| == |memory|
  {
    match op
    case Program(at, data) =>
      seq(|memory|, i requires 0 <= i < |memory| =>
        if at <= i < at + |data| then Programmed(memory[i], data[i - at]) else memory[i])
    case EraseRange(from, to) =>
      seq(|memory|, i requires 0 <= i < |memory| => if from <= i < to then ERASED else memory[i])
  }

  /** What the driver may be asked to do: stay inside the device, and clear bits only. */
  predicate Legal(memory: Memory, op: FlashOp) {
    match op
    case Program(at, data) =>
      at + |data| <= |memory|
      && forall k :: 0 <= k < |data| ==> OnlyClears(memory[at + k], data[k])
    case EraseRange(from, to) =>
      from <= to <= |memory| && from % ERASE_SIZE == 0 && to % ERASE_SIZE == 0
  }

  /** The slot that 256 bytes read as. */
  function ReadsAs(bytes: Image): Slot {
    if forall k :: 0 <= k < 256 ==> bytes[k] == ERASED then Erased
    else if bytes[0] == ACKNOWLEDGED then Acknowledged(Decode(bytes))
    else if bytes[0] != COMMITTED then Corrupt
    else match Decode(bytes)
      case Some(record) => Active(record)
      case None => Corrupt
  }

  /** Which pages read as what. */
  lemma SlotKinds(bytes: Image)
    ensures ReadsAs(bytes).Erased? <==> forall k :: 0 <= k < 256 ==> bytes[k] == 0xff
    ensures ReadsAs(bytes).Active? <==> bytes[0] == 0x7f && Decode(bytes).Some?
    ensures ReadsAs(bytes).Acknowledged? <==> bytes[0] == 0x3f
    ensures ReadsAs(bytes).Corrupt? <==>
              (exists k :: 0 <= k < 256 && bytes[k] != 0xff) && bytes[0] != 0x3f && (bytes[0] == 0x7f ==> Decode(bytes) == None)
  {
    hide Decode;
  }

  function PageAt(memory: Memory, address: nat): Image
    requires address + 256 <= |memory|
  {
    memory[address..address + 256]
  }

  /** A cut programming pulse has cleared some of the bits it would clear. */
  predicate TornByte(before: Byte, data: Byte, after: Byte) {
    after | before == before && Programmed(before, data) | after == after
  }

  /** An erase cut short leaves each page unchanged, erased or undecodable. */
  ghost predicate TornPage(before: Image, after: Image) {
    after == before || ReadsAs(after) == Erased || ReadsAs(after) == Corrupt || ReadsAs(after) == Acknowledged(None)
  }

  ghost predicate TornOp(memory: Memory, op: FlashOp, after: Memory) {
    |after| == |memory| &&
    match op
    case Program(at, data) =>
      forall i :: 0 <= i < |memory| ==>
        if at <= i < at + |data| then TornByte(memory[i], data[i - at], after[i]) else after[i] == memory[i]
    case EraseRange(from, to) =>
      && (forall i :: 0 <= i < |memory| && !(from <= i < to) ==> after[i] == memory[i])
      && (forall k: nat :: from + 256 * k + 256 <= to <= |memory| ==>
            TornPage(PageAt(memory, from + 256 * k), PageAt(after, from + 256 * k)))
  }

  ghost function ApplyAll(memory: Memory, ops: seq<FlashOp>): (after: Memory)
    ensures |after| == |memory|
    decreases ops
  {
    if ops == [] then memory else ApplyAll(Apply(memory, ops[0]), ops[1..])
  }

  /** The memories a power cut can leave anywhere in a list of operations. */
  ghost predicate CutOps(memory: Memory, ops: seq<FlashOp>, after: Memory)
    decreases ops
  {
    after == memory
    || (ops != [] && (TornOp(memory, ops[0], after) || CutOps(Apply(memory, ops[0]), ops[1..], after)))
  }

  /** The memory, and the operations completed so far. */
  datatype Trace = Trace(memory: Memory, log: seq<FlashOp>)

  /** Exactly these operations, in this order, lead from one trace to the other. */
  ghost predicate Issued(a: Trace, ops: seq<FlashOp>, b: Trace) {
    b.log == a.log + ops && b.memory == ApplyAll(a.memory, ops)
  }

  lemma {:induction false} ApplyAllAppend(memory: Memory, a: seq<FlashOp>, b: seq<FlashOp>)
    ensures ApplyAll(memory, a + b) == ApplyAll(ApplyAll(memory, a), b)
    decreases a
  {
    hide Apply;
    if a == [] {
      assert a + b == b;
    } else {
      assert (a + b)[1..] == a[1..] + b;
      ApplyAllAppend(Apply(memory, a[0]), a[1..], b);
    }
  }

  lemma ApplyOne(memory: Memory, op: FlashOp)
    ensures ApplyAll(memory, [op]) == Apply(memory, op)
  {
    hide Apply;
    assert ApplyAll(memory, [op]) == ApplyAll(Apply(memory, op), [op][1..]);
  }

  lemma ApplyTwo(memory: Memory, a: FlashOp, b: FlashOp)
    ensures ApplyAll(memory, [a, b]) == Apply(Apply(memory, a), b)
  {
    hide Apply;
    assert [a, b] == [a] + [b];
    ApplyAllAppend(memory, [a], [b]);
    ApplyOne(memory, a);
    ApplyOne(Apply(memory, a), b);
  }

  lemma {:induction false} CutOpsShort(memory: Memory, x: seq<FlashOp>, y: seq<FlashOp>, after: Memory)
    requires CutOps(memory, x, after)
    ensures CutOps(memory, x + y, after)
    decreases x
  {
    hide Apply, TornOp;
    if x != [] {
      assert (x + y)[1..] == x[1..] + y;
      if after != memory && !TornOp(memory, x[0], after) {
        CutOpsShort(Apply(memory, x[0]), x[1..], y, after);
      }
    }
  }

  lemma {:induction false} CutOpsLater(memory: Memory, x: seq<FlashOp>, y: seq<FlashOp>, after: Memory)
    requires CutOps(ApplyAll(memory, x), y, after)
    ensures CutOps(memory, x + y, after)
    decreases x
  {
    hide Apply, TornOp;
    if x == [] {
      assert x + y == y;
    } else {
      assert (x + y)[1..] == x[1..] + y;
      CutOpsLater(Apply(memory, x[0]), x[1..], y, after);
    }
  }

  lemma {:induction false} CompletedIsCut(memory: Memory, ops: seq<FlashOp>)
    ensures CutOps(memory, ops, ApplyAll(memory, ops))
    decreases ops
  {
    hide Apply, TornOp;
    if ops != [] {
      CompletedIsCut(Apply(memory, ops[0]), ops[1..]);
    }
  }

  /** Everything but a stretch of the memory is as it was. */
  ghost predicate SameOutside(a: Memory, b: Memory, start: nat, end: nat) {
    |a| == |b| && forall i :: 0 <= i < |a| && !(start <= i < end) ==> a[i] == b[i]
  }

  lemma IssuedThen(a: Trace, x: seq<FlashOp>, b: Trace, y: seq<FlashOp>, c: Trace)
    requires Issued(a, x, b) && Issued(b, y, c)
    ensures Issued(a, x + y, c)
  {
    hide ApplyAll;
    ApplyAllAppend(a.memory, x, y);
  }

  /** How many storage errors a result reports. */
  function Faulted<T>(r: Result<T, QueueError>): nat {
    match r
    case Err(Storage) => 1
    case _ => 0
  }

  /** The device behind the driver. Any operation may report an error, and errors are counted. A
      failed write may have programmed some of its bytes, a failed erase may have erased some pages; a
      failed write of a single state byte has programmed nothing. */
  class Device {
    const cells: array<Byte>
    const writeSize: nat
    const eraseSize: nat
    ghost var log: seq<FlashOp>
    ghost var faults: nat

    constructor (cells: array<Byte>, writeSize: nat, eraseSize: nat)
      ensures this.cells == cells && this.writeSize == writeSize && this.eraseSize == eraseSize
      ensures log == [] && faults == 0
    {
      this.cells, this.writeSize, this.eraseSize := cells, writeSize, eraseSize;
      log, faults := [], 0;
    }

    ghost function Now(): Trace
      reads this`log, cells
    {
      Trace(cells[..], log)
    }

    method Read(address: nat, length: nat) returns (r: Result<seq<Byte>, QueueError>)
      requires address + length <= cells.Length
      modifies this`faults
      ensures r.Ok? ==> r.value == cells[address..address + length]
      ensures r.Err? ==> r.error == Storage
      ensures faults == old(faults) + Faulted(r)
    {
      var faulty: bool := *;
      if faulty {
        faults := faults + 1;
      }
      r := if faulty then Err(Storage) else Ok(cells[address..address + length]);
    }

    /** The first `count` bytes reach the cells. */
    method Drive(address: nat, data: seq<Byte>, count: nat)
      requires count <= |data| && address + |data| <= cells.Length
      modifies cells
      ensures forall i :: 0 <= i < cells.Length ==>
                cells[i] == if address <= i < address + count then Programmed(old(cells[i]), data[i - address]) else old(cells[i])
    {
      hide Programmed;
      for k := 0 to count
        invariant forall i :: 0 <= i < cells.Length ==>
                    cells[i] == if address <= i < address + k then Programmed(old(cells[i]), data[i - address]) else old(cells[i])
      {
        cells[address + k] := Programmed(cells[address + k], data[k]);
      }
    }

    method Write(address: nat, data: seq<Byte>) returns (ok: bool)
      requires Legal(cells[..], Program(address, data))
      modifies this, cells
      ensures ok ==> cells[..] == Apply(old(cells[..]), Program(address, data))
      ensures ok ==> Issued(old(Now()), [Program(address, data)], Now())
      ensures !ok ==> TornOp(old(cells[..]), Program(address, data), cells[..]) && log == old(log)
      ensures !ok && |data| == 1 ==> cells[..] == old(cells[..])
      ensures faults == old(faults) + if ok then 0 else 1
    {
      WithinCells(cells[..], Program(address, data));
      hide TornOp, Programmed, Apply, ApplyAll, OnlyClears, Legal;
      ok := *;
      var reached: nat := |data|;
      if !ok {
        faults := faults + 1;
        var cut: int := *;
        reached := if 0 <= cut < |data| && |data| > 1 then cut else 0;
      }
      Drive(address, data, reached);
      PartialProgram(old(cells[..]), address, data, reached, cells[..]);
      if ok {
        log := log + [Program(address, data)];
        ApplyOne(old(cells[..]), Program(address, data));
      }
    }

    method Erase(from: nat, to: nat) returns (ok: bool)
      requires Legal(cells[..], EraseRange(from, to))
      modifies this, cells
      ensures ok ==> cells[..] == Apply(old(cells[..]), EraseRange(from, to))
      ensures ok ==> Issued(old(Now()), [EraseRange(from, to)], Now())
      ensures !ok ==> TornOp(old(cells[..]), EraseRange(from, to), cells[..]) && log == old(log)
      ensures faults == old(faults) + if ok then 0 else 1
    {
      var pages := WholePages(cells[..], from, to);
      hide TornOp, Apply, ApplyAll, Legal, ReadsAs;
      ok := *;
      if !ok {
        faults := faults + 1;
        var cut: int := *;
        pages := if 0 <= cut < pages then cut else 0;
      }
      var end := from + 256 * pages;
      assert end <= to;
      for i := from to end
        invariant log == old(log) && faults == old(faults) + if ok then 0 else 1
        invariant forall j :: 0 <= j < cells.Length ==>
                    cells[j] == if from <= j < i then ERASED else old(cells[j])
      {
        cells[i] := ERASED;
      }
      PartialErase(old(cells[..]), from, to, pages, cells[..]);
      if ok {
        log := log + [EraseRange(from, to)];
        ApplyOne(old(cells[..]), EraseRange(from, to));
      }
    }
  }

  lemma WithinCells(memory: Memory, op: FlashOp)
    requires Legal(memory, op)
    ensures op.Program? ==> op.address + |op.data| <= |memory|
    ensures op.EraseRange? ==> op.from <= op.to <= |memory| && op.from % 4096 == 0 && op.to % 4096 == 0
  {}

  lemma SectorsArePages(from: nat, to: nat)
    requires from <= to && from % 4096 == 0 && to % 4096 == 0
    ensures 256 * ((to - from) / 256) == to - from
  {
    assert from == 4096 * (from / 4096) && to == 4096 * (to / 4096);
    var sectors := to / 4096 - from / 4096;
    assert to - from == 256 * (16 * sectors);
  }

  function WholePages(memory: Memory, from: nat, to: nat): (pages: nat)
    requires Legal(memory, EraseRange(from, to))
    ensures from <= to <= |memory| && 256 * pages == to - from
  {
    hide OnlyClears;
    WithinCells(memory, EraseRange(from, to));
    SectorsArePages(from, to);
    (to - from) / 256
  }

  lemma ProgrammedIsTorn(before: Byte, data: Byte)
    ensures TornByte(before, data, before) && TornByte(before, data, Programmed(before, data))
  {}

  lemma PartialProgram(before: Memory, at: nat, data: seq<Byte>, reached: nat, after: Memory)
    requires reached <= |data| && at + |data| <= |before| == |after|
    requires forall i :: 0 <= i < |before| ==>
               after[i] == if at <= i < at + reached then Programmed(before[i], data[i - at]) else before[i]
    ensures TornOp(before, Program(at, data), after)
    ensures reached == |data| ==> after == Apply(before, Program(at, data))
    ensures reached == 0 ==> after == before
  {
    forall i | 0 <= i < |before| && at <= i < at + |data|
      ensures TornByte(before[i], data[i - at], after[i])
    {
      ProgrammedIsTorn(before[i], data[i - at]);
    }
    hide TornByte;
  }

  lemma PartialErase(before: Memory, from: nat, to: nat, pages: nat, after: Memory)
    requires from + 256 * pages <= to <= |before| == |after|
    requires forall i :: 0 <= i < |before| ==>
               after[i] == if from <= i < from + 256 * pages then ERASED else before[i]
    ensures TornOp(before, EraseRange(from, to), after)
    ensures from + 256 * pages == to ==> after == Apply(before, EraseRange(from, to))
  {
    hide Decode;
    forall k: nat | from + 256 * k + 256 <= to
      ensures TornPage(PageAt(before, from + 256 * k), PageAt(after, from + 256 * k))
    {
      if k >= pages {
        assert PageAt(after, from + 256 * k) == PageAt(before, from + 256 * k);
      }
    }
  }
}
