/** Bytes as bits and as numbers. */
module Bytes {
  type Byte = bv8

  lemma ByteIsItsNumber(b: Byte)
    ensures (b as nat) as Byte == b && b as nat < 256
  {}

  lemma NextByte(b: Byte)
    requires b as nat < 255
    ensures (b + 1) as nat == b as nat + 1
  {}

  lemma {:induction false} SomeByte(x: nat) returns (b: Byte)
    requires x < 256
    ensures b as nat == x
  {
    if x == 0 {
      b := 0;
    } else {
      var c := SomeByte(x - 1);
      NextByte(c);
      b := c + 1;
    }
  }

  lemma ByteRoundTrip(x: nat)
    requires x < 256
    ensures (x as Byte) as nat == x
  {
    var b := SomeByte(x);
    ByteIsItsNumber(b);
  }

  lemma WordRoundTrip(a: bv32)
    ensures (a as nat) as bv32 == a
  {}
}

/** Little-endian integers of a fixed number of bytes. */
module LittleEndian {
  import opened Bytes
  import opened Multiplication

  function Pow256(k: nat): nat
    ensures Pow256(k) > 0
  {
    if k == 0 then 1 else 256 * Pow256(k - 1)
  }

  function ToLE(n: nat, k: nat): (bytes: seq<Byte>)
    ensures |bytes| == k
  {
    if k == 0 then [] else [(n % 256) as Byte] + ToLE(n / 256, k - 1)
  }

  function FromLE(bytes: seq<Byte>): (n: nat)
    ensures n < Pow256(|bytes|)
  {
    if bytes == [] then 0 else (bytes[0] as nat) + 256 * FromLE(bytes[1..])
  }

  lemma {:induction false} RoundTrip(n: nat, k: nat)
    requires n < Pow256(k)
    ensures FromLE(ToLE(n, k)) == n
  {
    if k > 0 {
      ByteRoundTrip(n % 256);
      RoundTrip(n / 256, k - 1);
      assert ToLE(n, k)[1..] == ToLE(n / 256, k - 1);
    }
  }

  lemma LowDigit(b: nat, m: nat)
    requires b < 256
    ensures (b + 256 * m) % 256 == b && (b + 256 * m) / 256 == m
  {}

  lemma LowestFirst(b: Byte, m: nat, k: nat)
    ensures ToLE(b as nat + 256 * m, k + 1) == [b] + ToLE(m, k)
  {
    ByteIsItsNumber(b);
    LowDigit(b as nat, m);
  }

  lemma FirstIsLowest(bytes: seq<Byte>)
    requires bytes != []
    ensures FromLE(bytes) == bytes[0] as nat + 256 * FromLE(bytes[1..])
  {}

  lemma NoBytes(n: nat)
    ensures ToLE(n, 0) == []
  {}

  lemma {:induction false} RoundTripBack(bytes: seq<Byte>)
    ensures ToLE(FromLE(bytes), |bytes|) == bytes
  {
    hide ToLE, FromLE;
    if bytes == [] {
      NoBytes(FromLE(bytes));
    } else {
      var rest := bytes[1..];
      RoundTripBack(rest);
      FirstIsLowest(bytes);
      LowestFirst(bytes[0], FromLE(rest), |rest|);
      assert [bytes[0]] + rest == bytes;
    }
  }

  lemma DivideTwice(n: nat, p: nat)
    requires p > 0
    ensures n / 256 / p == n / (256 * p)
  {
    var q, a := n / 256 / p, n / 256 % p;
    var rest := 256 * a + n % 256;
    assert n / 256 == q * p + a;
    assert n == 256 * (q * p) + rest && 256 * (q * p) == q * (256 * p);
    QuotientIs(n, 256 * p, q, rest);
  }

  /** Byte number `i` is the digit for 256^i: the lowest comes first. */
  lemma {:induction false} DigitAt(n: nat, k: nat, i: nat)
    requires i < k
    ensures ToLE(n, k)[i] as nat == n / Pow256(i) % 256
  {
    ByteRoundTrip(n % 256);
    if i > 0 {
      DigitAt(n / 256, k - 1, i - 1);
      DivideTwice(n, Pow256(i - 1));
    }
  }

  lemma Widths()
    ensures Pow256(4) == 0x1_0000_0000
    ensures Pow256(8) == 0x1_0000_0000_0000_0000
  {
    assert Pow256(2) == 0x1_0000;
    assert Pow256(4) == 0x1_0000 * 0x1_0000;
    assert Pow256(6) == 0x1_0000 * 0x1_0000_0000;
  }

  lemma WordFitsFour(w: bv32)
    ensures w as nat < Pow256(4)
  {
    Widths();
  }
}
