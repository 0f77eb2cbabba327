/** What the checksum is: polynomial arithmetic over two elements, modulo the generator of
    section 3.2.9 of IEEE 802.3, with the usual initial value and complement. */
module CrcGenerator {
  import opened Bytes
  import opened LittleEndian
  import opened Crc32

  /** A polynomial, as the set of exponents with coefficient one. */
  type Polynomial = set<nat>

  const GENERATOR: Polynomial := {32, 26, 23, 22, 16, 12, 11, 10, 8, 7, 5, 4, 2, 1, 0}

  function Sum(p: Polynomial, q: Polynomial): Polynomial {
    (p - q) + (q - p)
  }

  function TimesX(p: Polynomial): Polynomial {
    set e | e in p :: e + 1
  }

  /** The remainder of a polynomial of degree at most 32. */
  function Remainder(p: Polynomial): Polynomial {
    if 32 in p then Sum(p, GENERATOR) else p
  }

  function Nibble(z: bv32): bv32 { z >> 4 }

  function LowBit(z: bv32, i: nat): bool
    requires i < 4
  {
    if i == 0 then z & 1 == 1 else if i == 1 then z & 2 == 2 else if i == 2 then z & 4 == 4 else z & 8 == 8
  }

  /** Bit number `i` of the register, from the lowest. */
  function Bit(z: bv32, i: nat): bool {
    if i < 4 then LowBit(z, i) else Bit(Nibble(z), i - 4)
  }

  /** The register is in reflected order: its lowest bit is the coefficient of x^31. */
  function Coefficient(z: bv32, e: nat): bool {
    e < 32 && Bit(z, 31 - e)
  }

  function Reflected(z: bv32): Polynomial {
    set e: nat | e < 32 && Coefficient(z, e)
  }

  // ----- bits

  lemma LowBitXor(x: bv32, y: bv32, i: nat)
    requires i < 4
    ensures LowBit(Xor(x, y), i) <==> (LowBit(x, i) != LowBit(y, i))
  {}

  lemma NibbleXor(x: bv32, y: bv32)
    ensures Nibble(Xor(x, y)) == Xor(Nibble(x), Nibble(y))
  {}

  lemma {:induction false} BitXor(x: bv32, y: bv32, i: nat)
    ensures Bit(Xor(x, y), i) <==> (Bit(x, i) != Bit(y, i))
    decreases i
  {
    hide Xor, Nibble, LowBit;
    if i < 4 {
      LowBitXor(x, y, i);
    } else {
      NibbleXor(x, y);
      BitXor(Nibble(x), Nibble(y), i - 4);
    }
  }

  lemma LowBitHalf(z: bv32, i: nat)
    requires i < 4
    ensures LowBit(Half(z), i) == if i < 3 then LowBit(z, i + 1) else LowBit(Nibble(z), 0)
  {}

  lemma NibbleOfHalf(z: bv32)
    ensures Nibble(Half(z)) == z >> 5
  {}

  lemma HalfOfNibble(z: bv32)
    ensures Half(Nibble(z)) == z >> 5
  {}

  lemma NibbleHalf(z: bv32)
    ensures Nibble(Half(z)) == Half(Nibble(z))
  {
    NibbleOfHalf(z);
    HalfOfNibble(z);
    hide *;
  }

  lemma {:induction false} BitHalf(z: bv32, i: nat)
    ensures Bit(Half(z), i) == Bit(z, i + 1)
    decreases i
  {
    hide Half, Nibble, LowBit;
    if i < 4 {
      LowBitHalf(z, i);
    } else {
      NibbleHalf(z);
      BitHalf(Nibble(z), i - 4);
    }
  }

  lemma {:induction false} NoBits(i: nat)
    ensures !Bit(0, i)
    decreases i
  {
    if i >= 4 {
      assert Nibble(0) == 0;
      NoBits(i - 4);
    }
  }

  function Nibbles(z: bv32, n: nat): bv32 {
    if n == 0 then z else Nibbles(Nibble(z), n - 1)
  }

  lemma {:induction false} BitOfNibbles(z: bv32, n: nat)
    ensures Bit(z, 4 * n) == Bit(Nibbles(z, n), 0)
    decreases n
  {
    hide Nibble, LowBit;
    if n > 0 {
      BitOfNibbles(Nibble(z), n - 1);
    }
  }

  lemma NibblesByTwo(z: bv32, n: nat)
    ensures Nibbles(z, n + 2) == Nibbles(z >> 8, n)
  {
    assert Nibbles(z, n + 2) == Nibbles(Nibble(z), n + 1) == Nibbles(Nibble(Nibble(z)), n);
    assert z >> 4 >> 4 == z >> 8;
  }

  lemma AllGone(z: bv32)
    ensures Nibbles(z, 8) == 0
  {
    NibblesByTwo(z, 6);
    NibblesByTwo(z >> 8, 4);
    NibblesByTwo(z >> 8 >> 8, 2);
    NibblesByTwo(z >> 8 >> 8 >> 8, 0);
    assert Nibbles(z >> 8 >> 8 >> 8 >> 8, 0) == 0;
    hide Nibbles;
  }

  lemma NoHighBit(z: bv32)
    ensures !Bit(z, 32)
  {
    BitOfNibbles(z, 8);
    AllGone(z);
    NoBits(0);
  }

  // ----- the polynomial constant is the generator without its leading term

  lemma PolynomialBit(i: nat)
    requires i < 32
    ensures Bit(POLYNOMIAL, i) <==> 31 - i in GENERATOR
  {
    assert Bit(0xedb8_8320, 5) && Bit(0xedb8_8320, 8) && Bit(0xedb8_8320, 9) && Bit(0xedb8_8320, 15);
    assert Bit(0xedb8_8320, 19) && Bit(0xedb8_8320, 20) && Bit(0xedb8_8320, 21) && Bit(0xedb8_8320, 23);
    assert Bit(0xedb8_8320, 24) && Bit(0xedb8_8320, 26) && Bit(0xedb8_8320, 27) && Bit(0xedb8_8320, 29);
    assert Bit(0xedb8_8320, 30) && Bit(0xedb8_8320, 31);
    assert !Bit(0xedb8_8320, 0) && !Bit(0xedb8_8320, 1) && !Bit(0xedb8_8320, 2) && !Bit(0xedb8_8320, 3);
    assert !Bit(0xedb8_8320, 4) && !Bit(0xedb8_8320, 6) && !Bit(0xedb8_8320, 7) && !Bit(0xedb8_8320, 10);
    assert !Bit(0xedb8_8320, 11) && !Bit(0xedb8_8320, 12) && !Bit(0xedb8_8320, 13) && !Bit(0xedb8_8320, 14);
    assert !Bit(0xedb8_8320, 16) && !Bit(0xedb8_8320, 17) && !Bit(0xedb8_8320, 18) && !Bit(0xedb8_8320, 22);
    assert !Bit(0xedb8_8320, 25) && !Bit(0xedb8_8320, 28);
  }

  // ----- one step

  lemma StepBit(z: bv32, i: nat)
    requires i < 32
    ensures Bit(ShiftXor(z), i) <==> ((i < 31 && Bit(z, i + 1)) != (Bit(z, 0) && 31 - i in GENERATOR))
  {
    TapForm(z);
    hide Xor, Half, Tap;
    BitXor(Half(z), Tap(z), i);
    BitHalf(z, i);
    NoHighBit(z);
    PolynomialBit(i);
    NoBits(i);
  }

  lemma ShiftedExponents(z: bv32, e: nat)
    ensures e in TimesX(Reflected(z)) <==> e > 0 && Coefficient(z, e - 1)
  {
    if e > 0 && Coefficient(z, e - 1) {
      assert e - 1 in Reflected(z);
    }
  }

  lemma RemainderAt(p: Polynomial, e: nat)
    ensures e in Remainder(p) <==> ((e in p) != (32 in p && e in GENERATOR))
  {}

  lemma RemaindersAreSmall(z: bv32, e: nat)
    requires e >= 32
    ensures e !in Remainder(TimesX(Reflected(z))) && e !in Reflected(ShiftXor(z))
  {
    hide ShiftXor, Bit;
    RemainderAt(TimesX(Reflected(z)), e);
    ShiftedExponents(z, e);
  }

  /** A step multiplies by x modulo the generator. */
  lemma StepMultipliesByX(z: bv32)
    ensures Reflected(ShiftXor(z)) == Remainder(TimesX(Reflected(z)))
  {
    hide Bit, ShiftXor, Remainder, TimesX, GENERATOR;
    forall e: nat
      ensures e in Reflected(ShiftXor(z)) <==> e in Remainder(TimesX(Reflected(z)))
    {
      if e < 32 {
        StepBit(z, 31 - e);
        ShiftedExponents(z, e);
        ShiftedExponents(z, 32);
        RemainderAt(TimesX(Reflected(z)), e);
      } else {
        RemaindersAreSmall(z, e);
      }
    }
  }

  // ----- initial value and complement

  lemma RegisterOfNone(z: bv32)
    ensures Register(z, []) == z
  {}

  /** One byte of the message, written out. */
  function ShiftedIn(z: bv32, byte: Byte): bv32 {
    ShiftXor(ShiftXor(ShiftXor(ShiftXor(ShiftXor(ShiftXor(ShiftXor(ShiftXor(Xor(z, Wide(byte))))))))))
  }

  lemma Absorbs(start: bv32, bytes: seq<Byte>, k: nat, z: bv32, after: bv32)
    requires k < |bytes| && Register(start, bytes[..k]) == z && ShiftedIn(z, bytes[k]) == after
    ensures Register(start, bytes[..k + 1]) == after
  {
    hide Shifts, ShiftXor, Xor;
    assert bytes[..k + 1][..k] == bytes[..k];
    Unrolled(Xor(z, Wide(bytes[k])));
  }

  lemma Digits1()
    ensures ShiftedIn(0xffff_ffff, 0x31) == 0x7c23_1048
    ensures ShiftedIn(0x7c23_1048, 0x32) == 0xb0ac_bb32
    ensures ShiftedIn(0xb0ac_bb32, 0x33) == 0x77b7_9c2d
  {}

  lemma Digits2()
    ensures ShiftedIn(0x77b7_9c2d, 0x34) == 0x641c_1f5c
    ensures ShiftedIn(0x641c_1f5c, 0x35) == 0x340a_c5e3
    ensures ShiftedIn(0x340a_c5e3, 0x36) == 0xf68d_2c9e
  {}

  lemma Digits3()
    ensures ShiftedIn(0xf68d_2c9e, 0x37) == 0xaffc_9660
    ensures ShiftedIn(0xaffc_9660, 0x38) == 0x651f_2550
    ensures ShiftedIn(0x651f_2550, 0x39) == 0x340b_c6d9
  {}

  /** The published check value: the checksum of the digits one to nine. */
  lemma CheckValue()
    ensures Checksum([0x31, 0x32, 0x33, 0x34, 0x35, 0x36, 0x37, 0x38, 0x39]) == 0xcbf4_3926
  {
    var start: bv32, digits: seq<Byte> := 0xffff_ffff, [0x31, 0x32, 0x33, 0x34, 0x35, 0x36, 0x37, 0x38, 0x39];
    RegisterOfNone(start);
    hide Register, ShiftedIn;
    assert digits[..0] == [] && digits[..9] == digits;
    Digits1();
    Digits2();
    Digits3();
    Absorbs(start, digits, 0, 0xffff_ffff, 0x7c23_1048);
    Absorbs(start, digits, 1, 0x7c23_1048, 0xb0ac_bb32);
    Absorbs(start, digits, 2, 0xb0ac_bb32, 0x77b7_9c2d);
    Absorbs(start, digits, 3, 0x77b7_9c2d, 0x641c_1f5c);
    Absorbs(start, digits, 4, 0x641c_1f5c, 0x340a_c5e3);
    Absorbs(start, digits, 5, 0x340a_c5e3, 0xf68d_2c9e);
    Absorbs(start, digits, 6, 0xf68d_2c9e, 0xaffc_9660);
    Absorbs(start, digits, 7, 0xaffc_9660, 0x651f_2550);
    Absorbs(start, digits, 8, 0x651f_2550, 0x340b_c6d9);
  }

  // ----- the residue

  lemma ByteBelow(b: Byte, w: bv32)
    requires w < 0x100_0000
    ensures ((w << 8) ^ (b as bv32)) as nat == 256 * (w as nat) + (b as nat)
  {}

  lemma WordWritten(b: Byte, w: bv32)
    ensures Xor(Wide(b), Raise(w)) == (w << 8) ^ (b as bv32)
  {}

  lemma WordAppends(b: Byte, w: bv32)
    requires w < 0x100_0000
    ensures Xor(Wide(b), Raise(w)) as nat == b as nat + 256 * (w as nat)
  {
    hide Xor, Wide, Raise;
    WordWritten(b, w);
    ByteBelow(b, w);
  }

  lemma {:induction false} WordIsNumber(window: seq<Byte>)
    requires |window| <= 4
    ensures Word(window) as nat == FromLE(window)
  {
    hide Xor, Wide, Raise;
    if window != [] {
      WordFits(window[1..]);
      WordIsNumber(window[1..]);
      WordAppends(window[0], Word(window[1..]));
    }
  }

  lemma WordOfChecksum(c: bv32)
    ensures Word(ToLE(c as nat, 4)) == c
  {
    hide Word, FromLE, ToLE;
    WordFitsFour(c);
    hide Pow256;
    RoundTrip(c as nat, 4);
    WordIsNumber(ToLE(c as nat, 4));
    WordRoundTrip(Word(ToLE(c as nat, 4)));
    WordRoundTrip(c);
  }

  lemma AllOnes(z: bv32)
    ensures Xor(z, Complement(z)) == 0xffff_ffff
  {}

  lemma FourBytesOfOnes()
    ensures ShiftedIn(0xffff_ffff, 0) == 0x2dfd_1072 && ShiftedIn(0x2dfd_1072, 0) == 0xbe26_ed00
    ensures ShiftedIn(0xbe26_ed00, 0) == 0x00be_26ed && ShiftedIn(0x00be_26ed, 0) == 0xdebb_20e3
  {}

  lemma ShiftedInZero(z: bv32)
    ensures ShiftedIn(z, 0) == Shifts(z, 8)
  {
    hide ShiftXor, Shifts;
    Unrolled(z);
    assert Xor(z, Wide(0)) == z;
  }

  lemma OnesShifted()
    ensures Shifts(0xffff_ffff, 32) == 0xdebb_20e3
  {
    hide Shifts, ShiftedIn;
    FourBytesOfOnes();
    ShiftedInZero(0xffff_ffff);
    ShiftedInZero(0x2dfd_1072);
    ShiftedInZero(0xbe26_ed00);
    ShiftedInZero(0x00be_26ed);
    ShiftsCompose(0xffff_ffff, 8, 8);
    ShiftsCompose(0xffff_ffff, 16, 8);
    ShiftsCompose(0xffff_ffff, 24, 8);
  }

  /** A message followed by its checksum always leaves the same register. */
  lemma Residue(m: seq<Byte>)
    ensures Register(0xffff_ffff, m + ToLE(Checksum(m) as nat, 4)) == 0xdebb_20e3
  {
    hide Register, Word, ToLE, Shifts, Xor, Complement;
    var z, c := Register(0xffff_ffff, m), Checksum(m);
    RegisterAppend(0xffff_ffff, m, ToLE(c as nat, 4));
    WindowAsWord(z, ToLE(c as nat, 4));
    WordOfChecksum(c);
    AllOnes(z);
    OnesShifted();
  }
}
