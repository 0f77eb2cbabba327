/** The 256-byte flash image of one record: state byte, 43 checked bytes, CRC-32, padding. */
module RecordCodec {
  import opened Types
  import opened Bytes
  import opened LittleEndian
  import Crc32

  const RECORD_VERSION: Byte := 3
  const MAGIC := 0x514c_4450
  const ERASED: Byte := 0xff
  const COMMITTED: Byte := 0x7f
  const ACKNOWLEDGED: Byte := 0x3f
  const NAN_BITS: u32 := 0x7fc0_0000

  /** A record fills one flash page. */
  type Image = bytes: seq<Byte> | |bytes| == 256 witness seq(256, _ => 0)

  function Blanks(n: nat): (bytes: seq<Byte>)
    ensures |bytes| == n
  {
    seq(n, _ => ERASED)
  }

  function BatteryByte(onBattery: Option<bool>): Byte {
    match onBattery
    case None => 0xff
    case Some(false) => 0
    case Some(true) => 1
  }

  /** Bytes 4..40, which every format version shares. */
  function CommonFields(r: Record): (bytes: seq<Byte>)
    ensures |bytes| == 36
  {
    ToLE(MAGIC, 4) + ToLE(r.sequence, 8) + ToLE(r.reading.timestamp, 8) + ToLE(r.reading.temperature, 4)
    + ToLE(r.reading.humidity, 4) + ToLE(r.reading.uptime, 8)
  }

  function VoltageBits(voltage: Option<u32>): u32 {
    if voltage.Some? then voltage.value else NAN_BITS
  }

  /** Bytes 1..44 of a current record, the part under the checksum. */
  function Checked(r: Record): (bytes: seq<Byte>)
    ensures |bytes| == 43
  {
    [RECORD_VERSION, BatteryByte(r.reading.onBattery), ERASED] + CommonFields(r)
    + ToLE(VoltageBits(r.reading.voltage), 4)
  }

  /** A state byte, checked bytes, their checksum, and padding up to the record size. */
  function Frame(state: Byte, checked: seq<Byte>): Image
    requires |checked| <= 251
  {
    [state] + checked + ToLE(Crc32.Checksum(checked) as nat, 4) + Blanks(251 - |checked|)
  }

  function Encode(r: Record): Image {
    Frame(COMMITTED, Checked(r))
  }

  function Field(bytes: Image, from: nat, to: nat): nat
    requires from <= to <= 256
  {
    FromLE(bytes[from..to])
  }

  function Field32(bytes: Image, from: nat): u32
    requires from + 4 <= 256
  {
    Widths();
    Field(bytes, from, from + 4)
  }

  function Field64(bytes: Image, from: nat): u64
    requires from + 8 <= 256
  {
    Widths();
    Field(bytes, from, from + 8)
  }

  function BatteryOf(bytes: Image): Option<Option<bool>> {
    if bytes[1] < 3 then Some(None)
    else if bytes[2] == 0xff then Some(None)
    else if bytes[2] == 0 then Some(Some(false))
    else if bytes[2] == 1 then Some(Some(true))
    else None
  }

  function VoltageOf(bytes: Image): Option<u32> {
    if bytes[1] == 1 then None
    else
      var voltage := Field32(bytes, 40);
      if IsFinite(voltage) then Some(voltage) else None
  }

  predicate ChecksumMatches(bytes: Image) {
    var at := if bytes[1] == 1 then 40 else 44;
    Crc32.Checksum(bytes[1..at]) as nat == Field32(bytes, at)
  }

  /** The state byte plays no part in decoding. */
  function Decode(bytes: Image): Option<Record> {
    if bytes[1] != 1 && bytes[1] != 2 && bytes[1] != RECORD_VERSION then None
    else if Field32(bytes, 4) != MAGIC then None
    else if !ChecksumMatches(bytes) then None
    else if BatteryOf(bytes) == None then None
    else
      Some(Record(
        Field64(bytes, 8),
        Measurement(
          Field64(bytes, 16), Field32(bytes, 24), Field32(bytes, 28), Field64(bytes, 32),
          VoltageOf(bytes), BatteryOf(bytes).value)))
  }

  // ----- what a frame reads back as

  /** Where the checked bytes and the checksum lie. */
  lemma Laid(state: Byte, checked: seq<Byte>, crc: seq<Byte>, pad: seq<Byte>)
    requires |crc| == 4
    ensures var bytes, n := [state] + checked + crc + pad, |checked|;
            bytes[1..n + 1] == checked && bytes[n + 1..n + 5] == crc
  {}

  lemma FrameChecksum(state: Byte, checked: seq<Byte>)
    requires 4 <= |checked| <= 251
    ensures var bytes := Frame(state, checked); var n := |checked|;
            bytes[1..n + 1] == checked && Field(bytes, n + 1, n + 5) == Crc32.Checksum(checked) as nat
  {
    hide Crc32.Checksum, FromLE, Pow256;
    var n, w := |checked|, Crc32.Checksum(checked);
    var crc := ToLE(w as nat, 4);
    hide ToLE;
    Laid(state, checked, crc, Blanks(251 - n));
    WordFitsFour(w);
    RoundTrip(w as nat, 4);
  }

  lemma CommonSlices(r: Record)
    ensures var common := CommonFields(r);
            && common[0..4] == ToLE(MAGIC, 4) && common[4..12] == ToLE(r.sequence, 8)
            && common[12..20] == ToLE(r.reading.timestamp, 8) && common[20..24] == ToLE(r.reading.temperature, 4)
            && common[24..28] == ToLE(r.reading.humidity, 4) && common[28..36] == ToLE(r.reading.uptime, 8)
  {}

  /** The common fields of any image that carries `CommonFields(r)` at offset 4. */
  lemma CommonFieldsDecode(bytes: Image, r: Record)
    requires bytes[4..40] == CommonFields(r)
    ensures Field32(bytes, 4) == MAGIC && Field64(bytes, 8) == r.sequence
    ensures Field64(bytes, 16) == r.reading.timestamp && Field32(bytes, 24) == r.reading.temperature
    ensures Field32(bytes, 28) == r.reading.humidity && Field64(bytes, 32) == r.reading.uptime
  {
    CommonSlices(r);
    hide FromLE, ToLE, Pow256, CommonFields;
    var common := bytes[4..40];
    Widths();
    FieldDecodes(bytes, common, 0, MAGIC, 4);
    FieldDecodes(bytes, common, 4, r.sequence, 8);
    FieldDecodes(bytes, common, 12, r.reading.timestamp, 8);
    FieldDecodes(bytes, common, 20, r.reading.temperature, 4);
    FieldDecodes(bytes, common, 24, r.reading.humidity, 4);
    FieldDecodes(bytes, common, 28, r.reading.uptime, 8);
  }

  lemma Slice<T>(s: seq<T>, from: nat, to: nat, i: nat, j: nat)
    requires from <= to <= |s| && i <= j <= to - from
    ensures s[from..to][i..j] == s[from + i..from + j]
  {
    var inner := s[from..to];
    assert forall k :: 0 <= k < j - i ==> inner[i..j][k] == inner[i + k] == s[from + i + k];
  }

  lemma FieldDecodes(bytes: Image, common: seq<Byte>, at: nat, n: nat, k: nat)
    requires common == bytes[4..40] && at + k <= 36
    requires common[at..at + k] == ToLE(n, k) && n < Pow256(k)
    ensures Field(bytes, at + 4, at + 4 + k) == n
  {
    Slice(bytes, 4, 40, at, at + k);
    RoundTrip(n, k);
  }

  lemma NaNIsNotFinite()
    ensures !IsFinite(NAN_BITS)
  {}

  lemma VoltageDecodes(bytes: Image, voltage: Option<u32>)
    requires bytes[1] != 1 && bytes[40..44] == ToLE(VoltageBits(voltage), 4)
    ensures VoltageOf(bytes) == if voltage.Some? && IsFinite(voltage.value) then voltage else None
  {
    hide FromLE, ToLE, Pow256, IsFinite;
    Widths();
    RoundTrip(VoltageBits(voltage), 4);
    NaNIsNotFinite();
  }

  /** The pieces of a frame, wherever the checked part ends. */
  lemma FrameParts(bytes: Image, checked: seq<Byte>, version: Byte, pad: (Byte, Byte), r: Record, rest: seq<Byte>)
    requires checked == [version, pad.0, pad.1] + CommonFields(r) + rest && |rest| <= 4
    requires bytes == Frame(COMMITTED, checked)
    requires (version == 1) == (rest == []) && (version != 1 ==> |rest| == 4)
    ensures bytes[1] == version && bytes[2] == pad.0
    ensures bytes[4..40] == CommonFields(r)
    ensures version != 1 ==> bytes[40..44] == rest
    ensures ChecksumMatches(bytes)
  {
    hide CommonFields;
    FrameChecksum(COMMITTED, checked);
    Slice(bytes, 1, |checked| + 1, 3, 39);
    assert bytes[4..40] == checked[3..39] == CommonFields(r);
    assert bytes[1] == checked[0] && bytes[2] == checked[1];
    if version != 1 {
      Slice(bytes, 1, 44, 39, 43);
      assert bytes[40..44] == checked[39..43] == rest;
    }
  }

  /** Every record comes back bit for bit, except that a non-finite voltage is missing. */
  lemma DecodeEncode(r: Record)
    ensures Decode(Encode(r)) == Some(StoredRecord(r))
  {
    hide CommonFields, ChecksumMatches, Frame, VoltageOf, IsFinite;
    var bytes, voltage := Encode(r), ToLE(VoltageBits(r.reading.voltage), 4);
    var battery := BatteryByte(r.reading.onBattery);
    FrameParts(bytes, Checked(r), RECORD_VERSION, (battery, ERASED), r, voltage);
    CommonFieldsDecode(bytes, r);
    VoltageDecodes(bytes, r.reading.voltage);
  }

  /** Version 2 had no power-source flag; its bytes 2 and 3 were padding. */
  function Version2(r: Record, pad: (Byte, Byte)): Image {
    Frame(COMMITTED, [2, pad.0, pad.1] + CommonFields(r) + ToLE(VoltageBits(r.reading.voltage), 4))
  }

  /** Version 1 had no voltage either, so its checksum sits four bytes earlier. */
  function Version1(r: Record, pad: (Byte, Byte)): Image {
    Frame(COMMITTED, [1, pad.0, pad.1] + CommonFields(r))
  }

  lemma Version2Upgrade(r: Record, pad: (Byte, Byte))
    ensures Decode(Version2(r, pad)) == Some(StoredRecord(r.(reading := r.reading.(onBattery := None))))
  {
    hide CommonFields, ChecksumMatches, Frame, VoltageOf, IsFinite;
    var bytes, voltage := Version2(r, pad), ToLE(VoltageBits(r.reading.voltage), 4);
    FrameParts(bytes, [2, pad.0, pad.1] + CommonFields(r) + voltage, 2, pad, r, voltage);
    CommonFieldsDecode(bytes, r);
    VoltageDecodes(bytes, r.reading.voltage);
  }

  lemma Version1Upgrade(r: Record, pad: (Byte, Byte))
    ensures Decode(Version1(r, pad)) == Some(r.(reading := r.reading.(onBattery := None, voltage := None)))
  {
    hide CommonFields, ChecksumMatches, Frame;
    var bytes, checked := Version1(r, pad), [1, pad.0, pad.1] + CommonFields(r);
    assert checked == checked + [];
    FrameParts(bytes, checked, 1, pad, r, []);
    CommonFieldsDecode(bytes, r);
  }

  // ----- the layout, byte by byte

  /** The letters PDLQ. */
  lemma MagicBytes()
    ensures ToLE(MAGIC, 4) == [0x50, 0x44, 0x4c, 0x51]
  {
    var letters: seq<Byte> := [0x50, 0x44, 0x4c, 0x51];
    assert FromLE(letters[3..]) == 0x51 && FromLE(letters[2..]) == 0x514c && FromLE(letters[1..]) == 0x51_4c44;
    assert FromLE(letters) == MAGIC;
    RoundTripBack(letters);
  }

  lemma CommonLayout(bytes: Image, r: Record)
    requires bytes[4..40] == CommonFields(r)
    ensures bytes[4..8] == [0x50, 0x44, 0x4c, 0x51]
    ensures bytes[8..16] == ToLE(r.sequence, 8) && bytes[16..24] == ToLE(r.reading.timestamp, 8)
    ensures bytes[24..28] == ToLE(r.reading.temperature, 4) && bytes[28..32] == ToLE(r.reading.humidity, 4)
    ensures bytes[32..40] == ToLE(r.reading.uptime, 8)
  {
    CommonSlices(r);
    hide ToLE, CommonFields;
    MagicBytes();
    Slice(bytes, 4, 40, 0, 4);
    Slice(bytes, 4, 40, 4, 12);
    Slice(bytes, 4, 40, 12, 20);
    Slice(bytes, 4, 40, 20, 24);
    Slice(bytes, 4, 40, 24, 28);
    Slice(bytes, 4, 40, 28, 36);
  }

  /** What stands where in the image of a record. */
  lemma Layout(r: Record)
    ensures var bytes := Encode(r);
            && bytes[..4] == [0x7f, 3, (match r.reading.onBattery case None => 0xff case Some(b) => if b then 1 else 0), 0xff]
            && bytes[4..8] == [0x50, 0x44, 0x4c, 0x51]
            && bytes[8..16] == ToLE(r.sequence, 8) && bytes[16..24] == ToLE(r.reading.timestamp, 8)
            && bytes[24..28] == ToLE(r.reading.temperature, 4) && bytes[28..32] == ToLE(r.reading.humidity, 4)
            && bytes[32..40] == ToLE(r.reading.uptime, 8)
            && bytes[40..44] == ToLE(match r.reading.voltage case None => 0x7fc0_0000 case Some(v) => v, 4)
            && bytes[44..48] == ToLE(Crc32.Checksum(bytes[1..44]) as nat, 4)
            && forall k :: 48 <= k < 256 ==> bytes[k] == 0xff
  {
    hide ToLE, CommonFields, Crc32.Checksum, FromLE, Pow256;
    var bytes, voltage, checked := Encode(r), ToLE(VoltageBits(r.reading.voltage), 4), Checked(r);
    FrameParts(bytes, checked, RECORD_VERSION, (BatteryByte(r.reading.onBattery), ERASED), r, voltage);
    CommonLayout(bytes, r);
    Laid(COMMITTED, checked, ToLE(Crc32.Checksum(checked) as nat, 4), Blanks(208));
  }

  /** The converse of decoding: whatever reads as a record is a frame that one of the three formats
      lays out for some record, and it reads as what that format upgrades to. */
  lemma ReadableIsWritten(bytes: Image) returns (w: Record, checked: seq<Byte>)
    requires Decode(bytes).Some?
    ensures |checked| <= 43 && bytes[1..|checked| + 5] == Frame(COMMITTED, checked)[1..|checked| + 5]
    ensures || (bytes[1] == 3 && Decode(bytes) == Some(StoredRecord(w))
                && checked == [3, BatteryByte(w.reading.onBattery), bytes[3]] + CommonFields(w)
                              + ToLE(VoltageBits(w.reading.voltage), 4))
            || (bytes[1] == 2 && Decode(bytes) == Some(StoredRecord(w.(reading := w.reading.(onBattery := None))))
                && checked == [2, bytes[2], bytes[3]] + CommonFields(w) + ToLE(VoltageBits(w.reading.voltage), 4))
            || (bytes[1] == 1 && Decode(bytes) == Some(w.(reading := w.reading.(onBattery := None, voltage := None)))
                && checked == [1, bytes[2], bytes[3]] + CommonFields(w))
  {
    hide CommonFields, Crc32.Checksum, FromLE, ToLE, Pow256, IsFinite;
    var r := Decode(bytes).value;
    w := if bytes[1] == 1 then r else r.(reading := r.reading.(voltage := Some(Field32(bytes, 40))));
    var at := if bytes[1] == 1 then 40 else 44;
    checked := bytes[1..at];
    CommonFieldsBack(bytes, w);
    CheckedBack(bytes, at);
    if bytes[1] != 1 {
      RoundTripBack(bytes[40..44]);
      assert checked == bytes[1..4] + bytes[4..40] + bytes[40..44];
    } else {
      assert checked == bytes[1..4] + bytes[4..40];
    }
    assert bytes[1..4] == [bytes[1], bytes[2], bytes[3]];
  }

  lemma CommonFieldsBack(bytes: Image, r: Record)
    requires Field32(bytes, 4) == MAGIC && Field64(bytes, 8) == r.sequence
    requires Field64(bytes, 16) == r.reading.timestamp && Field32(bytes, 24) == r.reading.temperature
    requires Field32(bytes, 28) == r.reading.humidity && Field64(bytes, 32) == r.reading.uptime
    ensures bytes[4..40] == CommonFields(r)
  {
    hide FromLE, ToLE;
    RoundTripBack(bytes[4..8]);
    RoundTripBack(bytes[8..16]);
    RoundTripBack(bytes[16..24]);
    RoundTripBack(bytes[24..28]);
    RoundTripBack(bytes[28..32]);
    RoundTripBack(bytes[32..40]);
    assert bytes[4..40] == bytes[4..8] + bytes[8..16] + bytes[16..24] + bytes[24..28] + bytes[28..32] + bytes[32..40];
  }

  lemma CheckedBack(bytes: Image, at: nat)
    requires 40 <= at <= 44 && Crc32.Checksum(bytes[1..at]) as nat == Field32(bytes, at)
    ensures bytes[1..at + 4] == Frame(COMMITTED, bytes[1..at])[1..at + 4]
  {
    hide FromLE, ToLE, Crc32.Checksum;
    RoundTripBack(bytes[at..at + 4]);
    var checked, crc := bytes[1..at], bytes[at..at + 4];
    Laid(COMMITTED, checked, crc, Blanks(251 - |checked|));
    assert bytes[1..at + 4] == checked + crc;
    FrontOf(COMMITTED, checked, crc, Blanks(251 - |checked|));
  }

  lemma FrontOf(state: Byte, checked: seq<Byte>, crc: seq<Byte>, pad: seq<Byte>)
    ensures ([state] + checked + crc + pad)[1..1 + |checked| + |crc|] == checked + crc
  {}

  /** Reprogramming the state byte neither hides nor changes a record. */
  lemma SameBeyondState(a: Image, b: Image)
    requires a[1..] == b[1..]
    ensures Decode(a) == Decode(b)
  {
    hide Crc32.Checksum, FromLE, IsFinite, Pow256;
    forall from: nat, to: nat | 1 <= from <= to <= 256 ensures a[from..to] == b[from..to] {
      Slice(a, 1, 256, from - 1, to - 1);
      Slice(b, 1, 256, from - 1, to - 1);
    }
    assert a[1] == a[1..][0] && b[1] == b[1..][0];
    assert a[2] == a[1..][1] && b[2] == b[1..][1];
  }

  lemma WordsDiffer(a: bv32, b: bv32)
    requires a != b
    ensures a as nat != b as nat
  {
    WordRoundTrip(a);
    WordRoundTrip(b);
  }

  /** A change confined to four consecutive bytes of 2..44 makes an encoded record unreadable. */
  lemma BurstMakesUnreadable(r: Record, bytes: Image, at: nat)
    requires 2 <= at <= 40 && bytes != Encode(r)
    requires forall j :: 0 <= j < 256 && !(at <= j < at + 4) ==> bytes[j] == Encode(r)[j]
    ensures Decode(bytes) == None
  {
    hide Crc32.Checksum, FromLE, Frame, CommonFields, IsFinite, BatteryByte;
    var sound := Encode(r);
    FrameChecksum(COMMITTED, Checked(r));
    var a, b := sound[1..44], bytes[1..44];
    assert sound[1] == a[0] == RECORD_VERSION;
    assert bytes[44..48] == sound[44..48];
    hide Encode, Checked;
    assert exists j :: 0 <= j < 256 && bytes[j] != sound[j];
    var j :| 0 <= j < 256 && bytes[j] != sound[j];
    assert a[j - 1] == sound[j] && b[j - 1] == bytes[j];
    Crc32.BurstDetected(a, b, at - 1);
    WordsDiffer(Crc32.Checksum(a), Crc32.Checksum(b));
    hide Field64, VoltageOf, BatteryOf;
  }

  // ----- the buffer filled in place

  method Store(buffer: array<Byte>, at: nat, bytes: seq<Byte>)
    requires at + |bytes| <= buffer.Length
    modifies buffer
    ensures buffer[..at + |bytes|] == old(buffer[..at]) + bytes
    ensures forall j :: at + |bytes| <= j < buffer.Length ==> buffer[j] == old(buffer[j])
  {
    for i := 0 to |bytes|
      invariant buffer[..at + i] == old(buffer[..at]) + bytes[..i]
      invariant forall j :: at + i <= j < buffer.Length ==> buffer[j] == old(buffer[j])
    {
      buffer[at + i] := bytes[i];
    }
  }

  method StoreCommonFields(buffer: array<Byte>, r: Record)
    requires buffer.Length == 256
    modifies buffer
    ensures buffer[..40] == old(buffer[..4]) + CommonFields(r)
    ensures forall j :: 40 <= j < 256 ==> buffer[j] == old(buffer[j])
  {
    hide ToLE;
    Store(buffer, 4, ToLE(MAGIC, 4));
    Store(buffer, 8, ToLE(r.sequence, 8));
    Store(buffer, 16, ToLE(r.reading.timestamp, 8));
    Store(buffer, 24, ToLE(r.reading.temperature, 4));
    Store(buffer, 28, ToLE(r.reading.humidity, 4));
    Store(buffer, 32, ToLE(r.reading.uptime, 8));
  }

  lemma Assembled(r: Record)
    ensures [COMMITTED, RECORD_VERSION, BatteryByte(r.reading.onBattery), ERASED] + CommonFields(r)
            + ToLE(VoltageBits(r.reading.voltage), 4) == [COMMITTED] + Checked(r)
  {
    hide ToLE, CommonFields;
  }

  lemma AfterFirst(bytes: seq<Byte>, first: Byte, rest: seq<Byte>)
    requires bytes == [first] + rest
    ensures bytes[1..|bytes|] == rest
  {
    assert bytes[1..|bytes|] == ([first] + rest)[1..];
  }

  lemma Framed(bytes: seq<Byte>, checked: seq<Byte>)
    requires |bytes| == 256 && |checked| == 43
    requires bytes[..48] == [COMMITTED] + checked + ToLE(Crc32.Checksum(checked) as nat, 4)
    requires forall j :: 48 <= j < 256 ==> bytes[j] == ERASED
    ensures bytes == Frame(COMMITTED, checked)
  {
    hide Crc32.Checksum, ToLE;
    assert bytes == bytes[..48] + bytes[48..];
    assert bytes[48..] == Blanks(208);
  }

  method FillChecked(buffer: array<Byte>, r: Record)
    requires buffer.Length == 256 && forall j :: 0 <= j < 256 ==> buffer[j] == ERASED
    modifies buffer
    ensures buffer[..44] == [COMMITTED] + Checked(r)
    ensures forall j :: 44 <= j < 256 ==> buffer[j] == ERASED
  {
    hide CommonFields, VoltageBits, Checked;
    buffer[0], buffer[1], buffer[2] := COMMITTED, RECORD_VERSION, BatteryByte(r.reading.onBattery);
    assert buffer[..4] == [COMMITTED, RECORD_VERSION, BatteryByte(r.reading.onBattery), ERASED];
    StoreCommonFields(buffer, r);
    var voltage := ToLE(VoltageBits(r.reading.voltage), 4);
    Assembled(r);
    hide ToLE;
    Store(buffer, 40, voltage);
  }

  method FillChecksum(buffer: array<Byte>, ghost checked: seq<Byte>)
    requires buffer.Length == 256 && |checked| == 43 && buffer[..44] == [COMMITTED] + checked
    requires forall j :: 44 <= j < 256 ==> buffer[j] == ERASED
    modifies buffer
    ensures buffer[..] == Frame(COMMITTED, checked)
  {
    hide Crc32.Checksum, Frame;
    AfterFirst(buffer[..44], COMMITTED, checked);
    assert buffer[1..44] == buffer[..44][1..44];
    var crc := Crc32.Compute(buffer[1..44]);
    var checksum := ToLE(crc as nat, 4);
    hide ToLE;
    Store(buffer, 44, checksum);
    assert buffer[..][..48] == buffer[..48];
    Framed(buffer[..], checked);
  }

  /** The buffer starts blank and is filled field by field; the checksum goes in last. */
  method Fill(r: Record) returns (buffer: array<Byte>)
    ensures fresh(buffer) && buffer[..] == Encode(r)
  {
    hide Checked, Frame;
    buffer := new Byte[256](_ => ERASED);
    FillChecked(buffer, r);
    FillChecksum(buffer, Checked(r));
  }
}
