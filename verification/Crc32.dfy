/** The reflected CRC-32 of section 3.2.9 of IEEE 802.3, one bit at a time. */
module Crc32 {
  import opened Bytes

  const POLYNOMIAL: bv32 := 0xedb8_8320

  function Xor(x: bv32, y: bv32): bv32 { x ^ y }

  function Half(z: bv32): bv32 { z >> 1 }

  /** The polynomial, masked by the bit that is shifted out. */
  function Tap(z: bv32): bv32 { POLYNOMIAL & (0 - (z & 1)) }

  function ShiftXor(z: bv32): bv32 { Xor(Half(z), Tap(z)) }

  function Shifts(z: bv32, n: nat): bv32 {
    if n == 0 then z else ShiftXor(Shifts(z, n - 1))
  }

  function Wide(b: Byte): bv32 { b as bv32 }

  /** The register after the bytes have been folded in, left to right. */
  function Register(z: bv32, bytes: seq<Byte>): bv32 {
    if bytes == [] then z
    else
      var last := |bytes| - 1;
      Shifts(Xor(Register(z, bytes[..last]), Wide(bytes[last])), 8)
  }

  function Complement(z: bv32): bv32 { !z }

  function Checksum(bytes: seq<Byte>): bv32 {
    Complement(Register(0xffff_ffff, bytes))
  }

  method Compute(bytes: seq<Byte>) returns (crc: bv32)
    ensures crc == Checksum(bytes)
  {
    crc := 0xffff_ffff;
    for i := 0 to |bytes|
      invariant crc == Register(0xffff_ffff, bytes[..i])
    {
      assert bytes[..i + 1][..i] == bytes[..i];
      crc := AbsorbByte(crc, bytes[i]);
    }
    assert bytes[..|bytes|] == bytes;
    crc := Complement(crc);
  }

  /** The inner loop over the bits of one byte. */
  method AbsorbByte(z: bv32, byte: Byte) returns (crc: bv32)
    ensures crc == Shifts(Xor(z, Wide(byte)), 8)
  {
    hide Tap, Half, Xor, Wide;
    crc := Xor(z, Wide(byte));
    ghost var start := crc;
    for bit := 0 to 8
      invariant crc == Shifts(start, bit)
    {
      crc := Xor(Half(crc), Tap(crc));
    }
  }

  // ----- laws of exclusive or

  lemma Associates(x: bv32, y: bv32, z: bv32)
    ensures Xor(Xor(x, y), z) == Xor(x, Xor(y, z))
  {}

  lemma Commutes(x: bv32, y: bv32)
    ensures Xor(x, y) == Xor(y, x)
  {}

  lemma Cancels(x: bv32, y: bv32)
    ensures Xor(Xor(x, y), y) == x
    ensures Xor(x, 0) == x
  {}

  lemma XorInjective(x: bv32, y: bv32, v: bv32)
    requires Xor(x, v) == Xor(y, v)
    ensures x == y
  {
    hide Xor;
    Cancels(x, v);
    Cancels(y, v);
  }

  lemma Interchange(p: bv32, q: bv32, r: bv32, s: bv32)
    ensures Xor(Xor(p, q), Xor(r, s)) == Xor(Xor(p, r), Xor(q, s))
  {
    hide Xor;
    Associates(p, q, Xor(r, s));
    Associates(q, r, s);
    Commutes(q, r);
    Associates(r, q, s);
    Associates(p, r, Xor(q, s));
  }

  lemma ComplementInjective(x: bv32, y: bv32)
    requires Complement(x) == Complement(y)
    ensures x == y
  {
    assert !(!x) == x && !(!y) == y;
  }

  // ----- one shift step is linear and injective

  lemma TapForm(z: bv32)
    ensures Tap(z) == if z & 1 == 1 then POLYNOMIAL else 0
  {
    assert z & 1 == 0 || z & 1 == 1;
  }

  lemma LowBits(x: bv32, y: bv32)
    ensures Xor(x, y) & 1 == (x & 1) ^ (y & 1)
    ensures x & 1 == 0 || x & 1 == 1
    ensures y & 1 == 0 || y & 1 == 1
  {}

  lemma TapLinear(x: bv32, y: bv32)
    ensures Tap(Xor(x, y)) == Xor(Tap(x), Tap(y))
  {
    TapForm(x);
    TapForm(y);
    TapForm(Xor(x, y));
    LowBits(x, y);
    hide Tap;
  }

  lemma HalfLinear(x: bv32, y: bv32)
    ensures Half(Xor(x, y)) == Xor(Half(x), Half(y))
  {}

  lemma ShiftXorLinear(x: bv32, y: bv32)
    ensures ShiftXor(Xor(x, y)) == Xor(ShiftXor(x), ShiftXor(y))
  {
    hide Tap, Half, Xor;
    TapLinear(x, y);
    HalfLinear(x, y);
    Interchange(Half(x), Tap(x), Half(y), Tap(y));
  }

  /** The top bit of the result tells which way the step went, so it can be undone. */
  function Unshift(w: bv32): bv32 {
    if w >> 31 == 1 then ((w ^ POLYNOMIAL) << 1) | 1 else w << 1
  }

  lemma UnshiftUndoes(z: bv32)
    ensures Unshift(ShiftXor(z)) == z
  {}

  lemma {:induction false} ShiftsLinear(x: bv32, y: bv32, n: nat)
    ensures Shifts(Xor(x, y), n) == Xor(Shifts(x, n), Shifts(y, n))
  {
    hide ShiftXor, Xor;
    if n > 0 {
      ShiftsLinear(x, y, n - 1);
      ShiftXorLinear(Shifts(x, n - 1), Shifts(y, n - 1));
    }
  }

  lemma {:induction false} ShiftsInjective(x: bv32, y: bv32, n: nat)
    requires Shifts(x, n) == Shifts(y, n)
    ensures x == y
  {
    hide ShiftXor, Unshift;
    if n > 0 {
      UnshiftUndoes(Shifts(x, n - 1));
      UnshiftUndoes(Shifts(y, n - 1));
      ShiftsInjective(x, y, n - 1);
    }
  }

  lemma {:induction false} ShiftsCompose(z: bv32, m: nat, n: nat)
    ensures Shifts(Shifts(z, m), n) == Shifts(z, m + n)
  {
    hide ShiftXor;
    if n > 0 {
      ShiftsCompose(z, m, n - 1);
    }
  }

  // ----- whole messages

  lemma {:induction false} RegisterAppend(z: bv32, a: seq<Byte>, b: seq<Byte>)
    ensures Register(z, a + b) == Register(Register(z, a), b)
  {
    hide Shifts, Xor, Wide;
    if b == [] {
      assert a + b == a;
    } else {
      var last := |b| - 1;
      RegisterAppend(z, a, b[..last]);
      assert (a + b)[..|a + b| - 1] == a + b[..last];
    }
  }

  lemma {:induction false} SameSuffix(x: bv32, y: bv32, c: seq<Byte>)
    requires Register(x, c) == Register(y, c)
    ensures x == y
  {
    hide Shifts, Xor, Wide;
    if c != [] {
      var last := |c| - 1;
      var p, q := Register(x, c[..last]), Register(y, c[..last]);
      ShiftsInjective(Xor(p, Wide(c[last])), Xor(q, Wide(c[last])), 8);
      XorInjective(p, q, Wide(c[last]));
      SameSuffix(x, y, c[..last]);
    }
  }

  function Raise(w: bv32): bv32 { w << 8 }

  /** The word whose little-endian bytes are the window; windows of up to four bytes fit. */
  function Word(window: seq<Byte>): bv32 {
    if window == [] then 0 else Xor(Wide(window[0]), Raise(Word(window[1..])))
  }

  lemma WordFits(window: seq<Byte>)
    requires |window| <= 3
    ensures Word(window) <= 0xff_ffff
    ensures |window| <= 2 ==> Word(window) <= 0xffff
    ensures |window| <= 1 ==> Word(window) <= 0xff
  {
    if window != [] {
      WordFits(window[1..]);
      RaiseFits(window[0], Word(window[1..]));
      hide Xor, Wide, Raise;
    }
  }

  lemma RaiseFits(b: Byte, w: bv32)
    ensures w == 0 ==> Xor(Wide(b), Raise(w)) <= 0xff
    ensures w <= 0xff ==> Xor(Wide(b), Raise(w)) <= 0xffff
    ensures w <= 0xffff ==> Xor(Wide(b), Raise(w)) <= 0xff_ffff
  {}

  lemma RaiseSplits(a: Byte, v: bv32, b: Byte, w: bv32)
    requires v <= 0xff_ffff && w <= 0xff_ffff
    requires Xor(Wide(a), Raise(v)) == Xor(Wide(b), Raise(w))
    ensures a == b && v == w
  {
    Split(a, v);
    Split(b, w);
    hide Xor, Raise;
  }

  lemma Split(a: Byte, v: bv32)
    requires v <= 0xff_ffff
    ensures Xor(Wide(a), Raise(v)) >> 8 == v
    ensures (Xor(Wide(a), Raise(v)) & 0xff) as Byte == a
  {}

  lemma {:induction false} WordInjective(x: seq<Byte>, y: seq<Byte>)
    requires |x| == |y| <= 4
    requires Word(x) == Word(y)
    ensures x == y
  {
    hide Xor, Wide, Raise;
    if x != [] {
      WordFits(x[1..]);
      WordFits(y[1..]);
      RaiseSplits(x[0], Word(x[1..]), y[0], Word(y[1..]));
      WordInjective(x[1..], y[1..]);
      assert x == [x[0]] + x[1..] && y == [y[0]] + y[1..];
    }
  }

  lemma EightSteps(z: bv32)
    requires z & 0xff == 0
    ensures ShiftXor(ShiftXor(ShiftXor(ShiftXor(ShiftXor(ShiftXor(ShiftXor(ShiftXor(z)))))))) == z >> 8
  {}

  lemma Unrolled(z: bv32)
    ensures Shifts(z, 8) == ShiftXor(ShiftXor(ShiftXor(ShiftXor(ShiftXor(ShiftXor(ShiftXor(ShiftXor(z))))))))
  {
    hide ShiftXor;
    assert Shifts(z, 2) == ShiftXor(ShiftXor(Shifts(z, 0)));
    assert Shifts(z, 4) == ShiftXor(ShiftXor(Shifts(z, 2)));
    assert Shifts(z, 6) == ShiftXor(ShiftXor(Shifts(z, 4)));
  }

  /** Feeding a short window byte by byte is feeding it as one word. */
  lemma {:induction false} WindowAsWord(z: bv32, window: seq<Byte>)
    requires |window| <= 4
    ensures Register(z, window) == Shifts(Xor(z, Word(window)), 8 * |window|)
    decreases |window|
  {
    hide Xor, Wide, Raise, Shifts;
    if window == [] {
      Cancels(z, 0);
      NoShift(z);
    } else {
      var rest := window[1..];
      var b, w := Wide(window[0]), Word(rest);
      assert window == window[..1] + rest;
      RegisterAppend(z, window[..1], rest);
      assert window[..1][..0] == [];
      WindowAsWord(Shifts(Xor(z, b), 8), rest);
      WordFits(rest);
      EightShifts(w);
      ShiftsLinear(Xor(z, b), Raise(w), 8);
      Associates(z, b, Raise(w));
      ShiftsCompose(Xor(z, Word(window)), 8, 8 * |rest|);
    }
  }

  lemma NoShift(z: bv32)
    ensures Shifts(z, 0) == z
  {}

  /** A word whose low byte is zero is only moved down. */
  lemma EightShifts(w: bv32)
    requires w <= 0xff_ffff
    ensures Shifts(Raise(w), 8) == w
  {
    hide Shifts, ShiftXor;
    Unrolled(Raise(w));
    RaiseFallsBack(w);
    EightSteps(Raise(w));
  }

  lemma RaiseFallsBack(w: bv32)
    requires w <= 0xff_ffff
    ensures Raise(w) & 0xff == 0 && Raise(w) >> 8 == w
  {}

  /** Burst detection: a change confined to four consecutive bytes is always seen,
      whatever the length of the message. */
  lemma BurstDetected(a: seq<Byte>, b: seq<Byte>, at: nat)
    requires |a| == |b| && a != b
    requires forall j :: 0 <= j < |a| && !(at <= j < at + 4) ==> a[j] == b[j]
    ensures Checksum(a) != Checksum(b)
  {
    hide Xor, Complement, Register, Shifts, Word;
    if Checksum(a) == Checksum(b) {
      var start: bv32 := 0xffff_ffff;
      ComplementInjective(Register(start, a), Register(start, b));
      var from := if at <= |a| then at else |a|;
      var to := if at + 4 <= |a| then at + 4 else |a|;
      var head, tail := a[..from], a[to..];
      var p, q := a[from..to], b[from..to];
      assert a == head + p + tail && b == head + q + tail;
      var z := Register(start, head);
      RegisterAppend(start, head, p);
      RegisterAppend(start, head + p, tail);
      RegisterAppend(start, head, q);
      RegisterAppend(start, head + q, tail);
      SameSuffix(Register(z, p), Register(z, q), tail);
      WindowAsWord(z, p);
      WindowAsWord(z, q);
      ShiftsInjective(Xor(z, Word(p)), Xor(z, Word(q)), 8 * |p|);
      Commutes(z, Word(p));
      Commutes(z, Word(q));
      XorInjective(Word(p), Word(q), z);
      WordInjective(p, q);
      assert false;
    }
  }
}
