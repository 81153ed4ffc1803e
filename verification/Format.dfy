// The on-disk format of runs and of the compiled index (format.go): a preamble, then sections
// of type, 32-bit big-endian length and value. Widths are explicit: a length is truncated to
// its field exactly as the program's conversions do.
module Format {
  import opened Bytes

  type i64 = x: int | -0x8000_0000_0000_0000 <= x < 0x8000_0000_0000_0000

  /** What a section's length field, and the reader's count of bytes left, can hold. */
  type Length = x: int | 0 <= x < 0x1_0000_0000

  const MAGIC: Key := [65, 90, 82, 83]
  const FORMAT_VERSION: Byte := 1
  const PREAMBLE: Key := [65, 90, 82, 83, 1]

  const SECTION_HEADER_LEN := 5
  const RECORD_HEADER_LEN := 3

  const SEC_ETAG: Byte := 1
  const SEC_LAST_MODIFIED: Byte := 2
  const SEC_MTIME: Byte := 3
  const SEC_SIZE: Byte := 4
  const SEC_FINGERPRINT: Byte := 5
  const SEC_DATA: Byte := 16

  datatype Validator = Validator(etag: Key, lastModified: Key, mtime: i64, size: i64, fingerprint: Key)
  datatype Record = Record(key: Key, mode: Byte)

  const NO_VALIDATOR := Validator([], [], 0, 0, [])

  // ---------------------------------------------------------------- numbers

  function Pow256(n: nat): (r: nat)
    ensures r > 0
  {
    if n == 0 then 1 else 256 * Pow256(n - 1)
  }

  /** The low `width` bytes of n, most significant first. */
  function BigEndian(n: nat, width: nat): (s: Key)
    ensures |s| == width
    decreases width
  {
    if width == 0 then [] else BigEndian(n / 256, width - 1) + [n % 256]
  }

  function FromBigEndian(s: Key): (n: nat)
    decreases |s|
  {
    if s == [] then 0 else FromBigEndian(s[..|s| - 1]) * 256 + s[|s| - 1]
  }

  lemma {:induction false} BigEndianRoundTrip(n: nat, width: nat)
    requires n < Pow256(width)
    ensures FromBigEndian(BigEndian(n, width)) == n
    decreases width
  {
    if width > 0 {
      BigEndianRoundTrip(n / 256, width - 1);
      assert BigEndian(n, width)[..width - 1] == BigEndian(n / 256, width - 1);
    }
  }

  lemma {:induction false} Pow256Values()
    ensures Pow256(2) == 0x1_0000 && Pow256(4) == 0x1_0000_0000 && Pow256(8) == 0x1_0000_0000_0000_0000
  {
    assert Pow256(1) == 256;
    assert Pow256(3) == 0x100_0000;
    assert Pow256(5) == 0x100_0000_0000;
    assert Pow256(6) == 0x1_0000_0000_0000;
    assert Pow256(7) == 0x100_0000_0000_0000;
  }

  /** uint64(n) and int64(u): two's complement. */
  function ToU64(n: i64): nat {
    if n < 0 then n + 0x1_0000_0000_0000_0000 else n
  }

  function FromU64(u: nat): i64
    requires u < 0x1_0000_0000_0000_0000
  {
    if u < 0x8000_0000_0000_0000 then u else u - 0x1_0000_0000_0000_0000
  }

  lemma {:induction false} FromBigEndianBound(s: Key)
    ensures FromBigEndian(s) < Pow256(|s|)
    decreases |s|
  {
    if s != [] {
      FromBigEndianBound(s[..|s| - 1]);
    }
  }

  function LengthOf(s: Key): Length
    requires |s| == 4
  {
    FromBigEndianBound(s);
    Pow256Values();
    FromBigEndian(s)
  }

  function Int64Of(s: Key): i64
    requires |s| == 8
  {
    FromBigEndianBound(s);
    Pow256Values();
    FromU64(FromBigEndian(s))
  }

  lemma {:induction false} Int64RoundTrip(n: i64)
    ensures Int64Of(BigEndian(ToU64(n), 8)) == n
  {
    Pow256Values();
    BigEndianRoundTrip(ToU64(n), 8);
  }

  // ---------------------------------------------------------------- what is written

  ghost function Section(typ: Byte, value: Key): Key {
    [typ] + BigEndian(|value|, 4) + value
  }

  ghost function StrSection(typ: Byte, s: Key): Key {
    if s == [] then [] else Section(typ, s)
  }

  ghost function NumSection(typ: Byte, n: i64): Key {
    if n == 0 then [] else Section(typ, BigEndian(ToU64(n), 8))
  }

  ghost function ValidatorBytes(v: Validator): Key {
    StrSection(SEC_ETAG, v.etag) + (StrSection(SEC_LAST_MODIFIED, v.lastModified)
    + (NumSection(SEC_MTIME, v.mtime) + (NumSection(SEC_SIZE, v.size) + StrSection(SEC_FINGERPRINT, v.fingerprint))))
  }

  ghost function RecordBytes(r: Record): Key {
    [r.mode] + BigEndian(|r.key|, 2) + r.key
  }

  ghost function Payload(recs: seq<Record>): Key {
    if recs == [] then [] else RecordBytes(recs[0]) + Payload(recs[1..])
  }

  ghost function DataBytes(recs: seq<Record>): Key {
    [SEC_DATA] + BigEndian(|Payload(recs)|, 4) + Payload(recs)
  }

  /** A whole run file, for records already sorted and compacted. */
  ghost function RunBytes(v: Validator, recs: seq<Record>): Key {
    PREAMBLE + (ValidatorBytes(v) + DataBytes(recs))
  }

  // ---------------------------------------------------------------- what is read

  datatype Header =
    | Header(v: Validator, dataLen: Length, rest: Key)
    | BadFormat
    | BadVersion(version: Byte)
    | Truncated

  function SetField(v: Validator, typ: Byte, value: Key): Validator {
    if typ == SEC_ETAG then v.(etag := value)
    else if typ == SEC_LAST_MODIFIED then v.(lastModified := value)
    else if typ == SEC_MTIME then (if |value| == 8 then v.(mtime := Int64Of(value)) else v)
    else if typ == SEC_SIZE then (if |value| == 8 then v.(size := Int64Of(value)) else v)
    else if typ == SEC_FINGERPRINT then v.(fingerprint := value)
    else v
  }

  /** Sections up to the data section, whose value is left in rest. */
  function ParseSections(v: Validator, s: Key): Header
    decreases |s|
  {
    if |s| < SECTION_HEADER_LEN then Truncated
    else
      var length := LengthOf(s[1..5]);
      var rest := s[5..];
      if s[0] == SEC_DATA then Header(v, length, rest)
      else if |rest| < length then Truncated
      else ParseSections(SetField(v, s[0], rest[..length]), rest[length..])
  }

  function ParseHeader(s: Key): Header {
    if |s| < 5 || s[..4] != MAGIC then BadFormat
    else if s[4] != FORMAT_VERSION then BadVersion(s[4])
    else ParseSections(NO_VALIDATOR, s[5..])
  }

  datatype Value = Found(value: Key) | NotAzrs | WrongVersion(version: Byte) | Cut | Missing

  /** The value of the first section of the wanted type. */
  function FindSection(s: Key, want: Byte): Value
    decreases |s|
  {
    if |s| < SECTION_HEADER_LEN then Missing
    else
      var length := LengthOf(s[1..5]);
      if |s| - 5 < length then Cut
      else if s[0] == want then Found(s[5..5 + length])
      else FindSection(s[5 + length..], want)
  }

  function SectionIn(raw: Key, want: Byte): Value {
    if |raw| < 5 || raw[..4] != MAGIC then NotAzrs
    else if raw[4] != FORMAT_VERSION then WrongVersion(raw[4])
    else FindSection(raw[5..], want)
  }

  // ---------------------------------------------------------------- the two decoders agree

  /** On any bytes, the section walker finds a data section with value d exactly when the
      header reader announces |d| bytes and that many follow, d being those. */
  lemma {:induction false} WalkersAgree(v: Validator, s: Key, d: Key)
    ensures FindSection(s, SEC_DATA) == Found(d)
            <==> var h := ParseSections(v, s); h.Header? && h.dataLen == |d| && d <= h.rest
    decreases |s|
  {
    if |s| >= SECTION_HEADER_LEN {
      var length := LengthOf(s[1..5]);
      var rest := s[5..];
      if s[0] == SEC_DATA {
        if length <= |rest| {
          assert s[5..5 + length] == rest[..length];
        }
      } else if length <= |rest| {
        assert rest[length..] == s[5 + length..];
        WalkersAgree(SetField(v, s[0], rest[..length]), rest[length..], d);
      }
    }
  }

  lemma {:induction false} DecodersAgree(raw: Key, d: Key)
    ensures SectionIn(raw, SEC_DATA) == Found(d)
            <==> var h := ParseHeader(raw); h.Header? && h.dataLen == |d| && d <= h.rest
  {
    if |raw| >= 5 {
      WalkersAgree(NO_VALIDATOR, raw[5..], d);
    }
  }

  // ---------------------------------------------------------------- round trips

  lemma {:induction false} SectionParts(typ: Byte, value: Key, tail: Key)
    requires |value| < 0x1_0000_0000
    ensures var s := Section(typ, value) + tail;
            && |s| == 5 + |value| + |tail| && s[0] == typ && LengthOf(s[1..5]) == |value|
            && s[5..] == value + tail && s[5..5 + |value|] == value && s[5 + |value|..] == tail
  {
    Pow256Values();
    BigEndianRoundTrip(|value|, 4);
    SectionSlices(typ, BigEndian(|value|, 4), value, tail);
  }

  lemma {:induction false} SectionSlices(typ: Byte, len: Key, value: Key, tail: Key)
    requires |len| == 4
    ensures var s := ([typ] + len + value) + tail;
            && |s| == 5 + |value| + |tail| && s[0] == typ && s[1..5] == len
            && s[5..] == value + tail && s[5..5 + |value|] == value && s[5 + |value|..] == tail
  {
  }

  lemma {:induction false} ParseSection(v: Validator, typ: Byte, value: Key, tail: Key)
    requires |value| < 0x1_0000_0000 && typ != SEC_DATA
    ensures ParseSections(v, Section(typ, value) + tail) == ParseSections(SetField(v, typ, value), tail)
  {
    SectionParts(typ, value, tail);
    TakeDropConcat(value, tail);
  }

  lemma {:induction false} TakeDropConcat(a: Key, b: Key)
    ensures (a + b)[..|a|] == a && (a + b)[|a|..] == b
  {
  }

  lemma {:induction false} ParseStr(v: Validator, typ: Byte, s: Key, tail: Key)
    requires |s| < 0x1_0000_0000 && typ != SEC_DATA
    ensures ParseSections(v, StrSection(typ, s) + tail) == ParseSections(if s == [] then v else SetField(v, typ, s), tail)
  {
    if s == [] {
      assert [] + tail == tail;
    } else {
      ParseSection(v, typ, s, tail);
    }
  }

  lemma {:induction false} ParseNum(v: Validator, typ: Byte, n: i64, tail: Key)
    requires typ == SEC_MTIME || typ == SEC_SIZE
    ensures ParseSections(v, NumSection(typ, n) + tail)
         == ParseSections(if n == 0 then v else if typ == SEC_MTIME then v.(mtime := n) else v.(size := n), tail)
  {
    if n == 0 {
      assert [] + tail == tail;
    } else {
      ParseSection(v, typ, BigEndian(ToU64(n), 8), tail);
      Int64RoundTrip(n);
    }
  }

  ghost predicate Fits(v: Validator) {
    |v.etag| < 0x1_0000_0000 && |v.lastModified| < 0x1_0000_0000 && |v.fingerprint| < 0x1_0000_0000
  }

  /** The header of a written run reads back as the same validator, zero fields included,
      and leaves exactly the payload. */
  lemma {:induction false} HeaderRoundTrip(v: Validator, recs: seq<Record>)
    requires Fits(v) && |Payload(recs)| < 0x1_0000_0000
    ensures ParseHeader(RunBytes(v, recs)) == Header(v, |Payload(recs)|, Payload(recs))
  {
    hide ParseSections, ValidatorBytes, DataBytes, StrSection, NumSection, Payload;
    var body := ValidatorBytes(v) + DataBytes(recs);
    TakeDropConcat(PREAMBLE, body);
    assert (PREAMBLE + body)[..4] == MAGIC && (PREAMBLE + body)[4] == FORMAT_VERSION;
    ParseValidator(v, DataBytes(recs));
    ParseData(v, recs);
  }

  /** Whatever the payload's size, its header is found, with the truncated length. */
  lemma {:induction false} LongPayloadHeader(v: Validator, recs: seq<Record>)
    requires Fits(v)
    ensures ParseHeader(RunBytes(v, recs)).Header?
  {
    hide ParseSections, ValidatorBytes, DataBytes, StrSection, NumSection, Payload;
    var body := ValidatorBytes(v) + DataBytes(recs);
    TakeDropConcat(PREAMBLE, body);
    assert (PREAMBLE + body)[..4] == MAGIC && (PREAMBLE + body)[4] == FORMAT_VERSION;
    ParseValidator(v, DataBytes(recs));
    DataIsHeader(v, recs);
  }

  lemma {:induction false} DataIsHeader(v: Validator, recs: seq<Record>)
    ensures ParseSections(v, DataBytes(recs)).Header?
  {
  }

  lemma {:induction false} ParseData(v: Validator, recs: seq<Record>)
    requires |Payload(recs)| < 0x1_0000_0000
    ensures ParseSections(v, DataBytes(recs)) == Header(v, |Payload(recs)|, Payload(recs))
  {
    var p := Payload(recs);
    SectionParts(SEC_DATA, p, []);
    assert DataBytes(recs) == Section(SEC_DATA, p) + [];
    assert p + [] == p;
  }

  lemma {:induction false} ParseValidator(v: Validator, tail: Key)
    requires Fits(v)
    ensures ParseSections(NO_VALIDATOR, ValidatorBytes(v) + tail) == ParseSections(v, tail)
  {
    hide ParseSections, StrSection, NumSection;
    var a, b := StrSection(SEC_ETAG, v.etag), StrSection(SEC_LAST_MODIFIED, v.lastModified);
    var c, d := NumSection(SEC_MTIME, v.mtime), NumSection(SEC_SIZE, v.size);
    var e := StrSection(SEC_FINGERPRINT, v.fingerprint);
    assert ValidatorBytes(v) + tail == a + (b + (c + (d + (e + tail))));
    var v1 := NO_VALIDATOR.(etag := v.etag);
    var v2 := v1.(lastModified := v.lastModified);
    var v3 := v2.(mtime := v.mtime);
    var v4 := v3.(size := v.size);
    ParseStr(NO_VALIDATOR, SEC_ETAG, v.etag, b + (c + (d + (e + tail))));
    ParseStr(v1, SEC_LAST_MODIFIED, v.lastModified, c + (d + (e + tail)));
    ParseNum(v2, SEC_MTIME, v.mtime, d + (e + tail));
    ParseNum(v3, SEC_SIZE, v.size, e + tail);
    ParseStr(v4, SEC_FINGERPRINT, v.fingerprint, tail);
  }

  /** The compiled index reads back as it was saved. */
  lemma {:induction false} IndexRoundTrip(data: Key)
    requires |data| < 0x1_0000_0000
    ensures SectionIn(PREAMBLE + Section(SEC_DATA, data), SEC_DATA) == Found(data)
  {
    var s := Section(SEC_DATA, data);
    TakeDropConcat(PREAMBLE, s);
    assert (PREAMBLE + s)[..4] == MAGIC && (PREAMBLE + s)[4] == FORMAT_VERSION;
    SectionParts(SEC_DATA, data, []);
    assert s + [] == s;
  }

  // ---------------------------------------------------------------- actual bytes

  /** Numbers are written with the most significant byte first. */
  lemma {:induction false} MostSignificantFirst(a: Byte, b: Byte, c: Byte, d: Byte)
    ensures BigEndian(a * 0x100_0000 + b * 0x1_0000 + c * 0x100 + d, 4) == [a, b, c, d]
    ensures BigEndian(c * 0x100 + d, 2) == [c, d]
    ensures FromBigEndian([a, b, c, d]) == a * 0x100_0000 + b * 0x1_0000 + c * 0x100 + d
    ensures FromBigEndian([c, d]) == c * 0x100 + d
  {
    assert BigEndian(0, 0) == [] && FromBigEndian([]) == 0;
    hide BigEndian, FromBigEndian;
    LastByte(a, 1, 0, a);
    LastByte(a * 0x100 + b, 2, a, b);
    LastByte(a * 0x1_0000 + b * 0x100 + c, 3, a * 0x100 + b, c);
    LastByte(a * 0x100_0000 + b * 0x1_0000 + c * 0x100 + d, 4, a * 0x1_0000 + b * 0x100 + c, d);
    LastByte(c, 1, 0, c);
    LastByte(c * 0x100 + d, 2, c, d);
    FromSnoc([], c);
    FromSnoc([c], d);
    FromSnoc([], a);
    FromSnoc([a], b);
    FromSnoc([a, b], c);
    FromSnoc([a, b, c], d);
  }

  lemma {:induction false} LastByte(n: nat, width: nat, high: nat, low: Byte)
    requires n == high * 256 + low && width > 0
    ensures BigEndian(n, width) == BigEndian(high, width - 1) + [low]
  {
  }

  lemma {:induction false} FromSnoc(s: Key, b: Byte)
    ensures FromBigEndian(s + [b]) == FromBigEndian(s) * 256 + b
    ensures s == [] ==> s + [b] == [b]
    ensures |s| == 1 ==> s + [b] == [s[0], b]
    ensures |s| == 2 ==> s + [b] == [s[0], s[1], b]
    ensures |s| == 3 ==> s + [b] == [s[0], s[1], s[2], b]
  {
    assert (s + [b])[..|s|] == s;
  }

  /** A whole file: magic and version, the five fields by number, the data section, one record. */
  lemma {:induction false} FileOfExample()
    ensures RunBytes(Validator([120], [121], 1, -2, [122]), [Record([99, 111, 109], 2)])
         == [65, 90, 82, 83, 1]
          + (([1, 0, 0, 0, 1] + [120]
          + ([2, 0, 0, 0, 1] + [121]
          + ([3, 0, 0, 0, 8] + [0, 0, 0, 0, 0, 0, 0, 1]
          + ([4, 0, 0, 0, 8] + [255, 255, 255, 255, 255, 255, 255, 254]
          + ([5, 0, 0, 0, 1] + [122])))))
          + ([16, 0, 0, 0, 6] + ([2, 0, 3] + [99, 111, 109])))
  {
    SmallSection(1, [120]);
    SmallSection(2, [121]);
    SmallSection(3, [0, 0, 0, 0, 0, 0, 0, 1]);
    SmallSection(4, [255, 255, 255, 255, 255, 255, 255, 254]);
    SmallSection(5, [122]);
    EightBytes();
    SmallData(2, [99, 111, 109]);
    hide Section, DataBytes, BigEndian;
  }

  /** Empty fields are not written. */
  lemma {:induction false} EmptyFile()
    ensures RunBytes(NO_VALIDATOR, []) == [65, 90, 82, 83, 1] + [16, 0, 0, 0, 0]
  {
    assert ValidatorBytes(NO_VALIDATOR) == [];
    MostSignificantFirst(0, 0, 0, 0);
    hide BigEndian;
    FiveBytes(16, [0, 0, 0, 0], []);
    assert Payload([]) == [] && [16, 0, 0, 0, 0] + [] == [16, 0, 0, 0, 0];
  }

  lemma {:induction false} SmallData(mode: Byte, key: Key)
    requires |key| < 253
    ensures DataBytes([Record(key, mode)]) == [16, 0, 0, 0, |key| + 3] + ([mode, 0, |key|] + key)
  {
    var r := Record(key, mode);
    MostSignificantFirst(0, 0, 0, |key|);
    MostSignificantFirst(0, 0, 0, |key| + 3);
    hide BigEndian;
    assert RecordBytes(r) == [mode, 0, |key|] + key;
    OneRecord(r);
    hide RecordBytes, Payload;
    FiveBytes(16, [0, 0, 0, |key| + 3], [mode, 0, |key|] + key);
  }

  lemma {:induction false} OneRecord(r: Record)
    ensures Payload([r]) == RecordBytes(r)
  {
    assert [r][1..] == [];
    assert Payload([]) == [];
  }

  lemma {:induction false} FiveBytes(typ: Byte, len: Key, rest: Key)
    requires |len| == 4
    ensures [typ] + len + rest == [typ, len[0], len[1], len[2], len[3]] + rest
  {
    assert [typ] + len == [typ, len[0], len[1], len[2], len[3]];
  }

  lemma {:induction false} SmallSection(typ: Byte, value: Key)
    requires |value| < 256
    ensures Section(typ, value) == [typ, 0, 0, 0, |value|] + value
  {
    MostSignificantFirst(0, 0, 0, |value|);
  }

  lemma {:induction false} EightBytes()
    ensures BigEndian(ToU64(1), 8) == [0, 0, 0, 0, 0, 0, 0, 1]
    ensures BigEndian(ToU64(-2), 8) == [255, 255, 255, 255, 255, 255, 255, 254]
  {
    MostSignificantFirst(255, 255, 255, 255);
    MostSignificantFirst(0, 0, 0, 0);
    LastByte(1, 8, 0, 1);
    LastByte(0, 7, 0, 0);
    LastByte(0, 6, 0, 0);
    LastByte(0, 5, 0, 0);
    LastByte(0xFFFF_FFFF_FFFF_FFFE, 8, 0xFF_FFFF_FFFF_FFFF, 254);
    LastByte(0xFF_FFFF_FFFF_FFFF, 7, 0xFFFF_FFFF_FFFF, 255);
    LastByte(0xFFFF_FFFF_FFFF, 6, 0xFF_FFFF_FFFF, 255);
    LastByte(0xFF_FFFF_FFFF, 5, 0xFFFF_FFFF, 255);
  }

  /** What a reader makes of the first bytes of any file. */
  lemma {:induction false} PreambleDecides(raw: Key)
    ensures ParseHeader(raw) == BadFormat <==> !([65, 90, 82, 83] <= raw && |raw| >= 5)
    ensures forall n :: ParseHeader(raw) == BadVersion(n) <==> [65, 90, 82, 83, n] <= raw && n != 1
    ensures SectionIn(raw, SEC_DATA) == NotAzrs <==> ParseHeader(raw) == BadFormat
    ensures forall n :: SectionIn(raw, SEC_DATA) == WrongVersion(n) <==> ParseHeader(raw) == BadVersion(n)
  {
    if |raw| >= 5 {
      assert [65, 90, 82, 83] <= raw <==> raw[..4] == MAGIC;
      forall n: Byte
        ensures [65, 90, 82, 83, n] <= raw <==> raw[..4] == MAGIC && raw[4] == n
      {
        assert [65, 90, 82, 83, n][..4] == MAGIC;
        if raw[..4] == MAGIC && raw[4] == n {
          assert raw[..5] == raw[..4] + [n];
        }
      }
      SectionsOrTruncated(NO_VALIDATOR, raw[5..]);
      FoundOrNot(raw[5..], SEC_DATA);
    }
  }

  lemma {:induction false} SectionsOrTruncated(v: Validator, s: Key)
    ensures ParseSections(v, s).Header? || ParseSections(v, s).Truncated?
    decreases |s|
  {
    if |s| >= 5 && s[0] != SEC_DATA && LengthOf(s[1..5]) <= |s| - 5 {
      var n := LengthOf(s[1..5]);
      SectionsOrTruncated(SetField(v, s[0], s[5..][..n]), s[5..][n..]);
    }
  }

  lemma {:induction false} FoundOrNot(s: Key, want: Byte)
    ensures FindSection(s, want).Found? || FindSection(s, want).Cut? || FindSection(s, want).Missing?
    decreases |s|
  {
    if |s| >= 5 && LengthOf(s[1..5]) <= |s| - 5 {
      FoundOrNot(s[5 + LengthOf(s[1..5])..], want);
    }
  }

  /** A section of a number that is no field, or a number of other than eight bytes, is passed
      over; of two sections for one field the later one stands. */
  lemma {:induction false} SectionsInReading(v: Validator, typ: Byte, a: Key, b: Key, tail: Key)
    requires |a| < 0x1_0000_0000 && |b| < 0x1_0000_0000 && typ != 16
    ensures typ == 0 || 5 < typ || ((typ == 3 || typ == 4) && |a| != 8) ==>
              ParseSections(v, Section(typ, a) + tail) == ParseSections(v, tail)
    ensures typ == 1 || typ == 2 || typ == 5 ==>
              ParseSections(v, Section(typ, a) + (Section(typ, b) + tail)) == ParseSections(v, Section(typ, b) + tail)
  {
    ParseSection(v, typ, a, tail);
    ParseSection(v, typ, a, Section(typ, b) + tail);
    ParseSection(v, typ, b, tail);
    ParseSection(SetField(v, typ, a), typ, b, tail);
    hide ParseSections;
  }
}
