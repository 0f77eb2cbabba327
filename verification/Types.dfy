/** Values shared by every layer: machine integers, the stored measurement and the error type. */
module Types {
  datatype Option<+T> = None | Some(value: T)

  datatype Result<+T, +E> = Ok(value: T) | Err(error: E)

  const TWO_TO_THE_32 := 0x1_0000_0000
  const TWO_TO_THE_64 := 0x1_0000_0000_0000_0000

  type u32 = x: nat | x < TWO_TO_THE_32
  type u64 = x: nat | x < TWO_TO_THE_64

  function WrappingIncrement(x: u64): u64 {
    if x + 1 < TWO_TO_THE_64 then x + 1 else 0
  }

  function SaturatingIncrement(x: u64): u64 {
    if x + 1 < TWO_TO_THE_64 then x + 1 else x
  }

  /** They differ only at the top. */
  lemma Increments(x: u64)
    ensures WrappingIncrement(x) == (x + 1) % TWO_TO_THE_64
    ensures SaturatingIncrement(x) == if x == 0xffff_ffff_ffff_ffff then x else x + 1
  {}

  /** What one sensor reading contributes; floats are their 32 IEEE 754 bits. */
  datatype Measurement = Measurement(
    timestamp: u64,
    temperature: u32,
    humidity: u32,
    uptime: u64,
    voltage: Option<u32>,
    onBattery: Option<bool>)

  datatype Record = Record(sequence: u64, reading: Measurement)

  datatype QueueError = Storage | InvalidGeometry

  /** A binary32 value is finite iff its exponent field is not all ones
      (section 3.4 of IEEE 754-2008). */
  predicate IsFinite(bits: u32) {
    bits / 0x80_0000 % 0x100 != 0xff
  }

  /** Below the sign bit, the finite values are those under the bits of infinity. */
  lemma FiniteIff(bits: u32)
    ensures IsFinite(bits) <==> bits % 0x8000_0000 < 0x7f80_0000
  {
    var low := bits % 0x8000_0000;
    assert bits / 0x80_0000 % 0x100 == low / 0x80_0000;
  }

  /** What survives a trip through flash: a voltage that is not finite reads back as missing. */
  function Stored(m: Measurement): Measurement {
    if m.voltage.Some? && !IsFinite(m.voltage.value) then m.(voltage := None) else m
  }

  function StoredRecord(r: Record): Record {
    r.(reading := Stored(r.reading))
  }
}
