// Reading what Store wrote: the header reader, the section walker and the record reader, on
// arbitrary bytes, and the round trip through a whole run file.
module Reader {
  import opened Bytes
  import opened Format
  import opened Store

  // ---------------------------------------------------------------- streams

  class Stream {
    var rest: Key

    constructor (bytes: Key)
      ensures rest == bytes
    {
      rest := bytes;
    }

    /** io.ReadFull: all n bytes, or an error with the stream at its end. */
    method ReadFull(n: nat) returns (b: Key, ok: bool)
      modifies this
      ensures ok <==> n <= |old(rest)|
      ensures ok ==> b == old(rest)[..n] && rest == old(rest)[n..]
      ensures !ok ==> rest == []
    {
      ok := n <= |rest|;
      if ok {
        b, rest := rest[..n], rest[n..];
      } else {
        b, rest := rest, [];
      }
    }
  }

  /** readHeader: preamble, validator fields, and the length announced for the data section,
      at whose value the stream is left. */
  method ReadHeader(br: Stream) returns (h: Header)
    modifies br
    ensures h == ParseHeader(old(br.rest))
    ensures h.Header? ==> br.rest == h.rest
  {
    var all := br.rest;
    var p, ok := br.ReadFull(5);
    if !ok || p[..4] != MAGIC {
      PreambleParts(all, p, ok);
      return BadFormat;
    }
    PreambleParts(all, p, ok);
    if p[4] != FORMAT_VERSION {
      return BadVersion(p[4]);
    }
    h := ReadSections(br);
  }

  lemma {:induction false} PreambleParts(all: Key, p: Key, ok: bool)
    requires ok <==> 5 <= |all|
    requires ok ==> p == all[..5]
    ensures ok ==> p[..4] == all[..4] && p[4] == all[4]
  {
    if ok {
      TakeOfTake(all, 4, 5);
    }
  }

  method ReadSections(br: Stream) returns (h: Header)
    modifies br
    ensures h == ParseSections(NO_VALIDATOR, old(br.rest))
    ensures h.Header? ==> br.rest == h.rest
  {
    var v := NO_VALIDATOR;
    while true
      invariant ParseSections(v, br.rest) == ParseSections(NO_VALIDATOR, old(br.rest))
      decreases |br.rest|
    {
      ghost var s := br.rest;
      var hd, ok := br.ReadFull(SECTION_HEADER_LEN);
      if !ok {
        return Truncated;
      }
      SliceOfTake(s, 1, 5, 5);
      var typ := hd[0];
      var length := LengthOf(hd[1..5]);
      if typ == SEC_DATA {
        return Header(v, length, br.rest);
      }
      var val;
      val, ok := br.ReadFull(length);
      if !ok {
        return Truncated;
      }
      v := SetField(v, typ, val);
    }
  }

  /** sectionValue: the same sections walked by index over the whole file. */
  method SectionValue(raw: Key, want: Byte) returns (r: Value)
    ensures r == SectionIn(raw, want)
  {
    if |raw| < 5 || raw[..4] != MAGIC {
      return NotAzrs;
    }
    if raw[4] != FORMAT_VERSION {
      return WrongVersion(raw[4]);
    }
    var p := 5;
    while p + SECTION_HEADER_LEN <= |raw|
      invariant 5 <= p <= |raw|
      invariant FindSection(raw[p..], want) == FindSection(raw[5..], want)
    {
      SectionAt(raw, p, want);
      var typ := raw[p];
      var length := LengthOf(raw[p + 1..p + 5]);
      p := p + SECTION_HEADER_LEN;
      if p + length > |raw| {
        return Cut;
      }
      if typ == want {
        return Found(raw[p..p + length]);
      }
      p := p + length;
    }
    return Missing;
  }

  lemma {:induction false} SectionAt(raw: Key, p: nat, want: Byte)
    requires p + 5 <= |raw|
    ensures var length := LengthOf(raw[p + 1..p + 5]);
            FindSection(raw[p..], want) ==
            if p + 5 + length > |raw| then Cut
            else if raw[p] == want then Found(raw[p + 5..p + 5 + length])
            else FindSection(raw[p + 5 + length..], want)
  {
    var s := raw[p..];
    assert s[1..5] == raw[p + 1..p + 5];
    var length := LengthOf(raw[p + 1..p + 5]);
    if p + 5 + length <= |raw| {
      assert s[5..5 + length] == raw[p + 5..p + 5 + length];
      assert s[5 + length..] == raw[p + 5 + length..];
    }
  }

  // ---------------------------------------------------------------- records

  datatype NextResult = Rec(rec: Record) | End | ReadError | TruncatedRecord

  /** One call of Next on the bytes left, of which `remain` belong to the data section. */
  function NextOf(rest: Key, remain: nat): (NextResult, Key, nat) {
    if remain < RECORD_HEADER_LEN then (End, rest, remain)
    else if |rest| < RECORD_HEADER_LEN then (ReadError, [], remain)
    else
      var keyLen := FromBigEndian(rest[1..3]);
      var left := remain - RECORD_HEADER_LEN;
      if keyLen > left then (TruncatedRecord, rest[3..], left)
      else if |rest| - 3 < keyLen then (ReadError, [], left)
      else (Rec(Record(rest[3..3 + keyLen], rest[0])), rest[3 + keyLen..], left - keyLen)
  }

  class RunReader {
    const br: Stream
    var remain: Length

    constructor (br: Stream, remain: Length)
      ensures this.br == br && this.remain == remain
    {
      this.br := br;
      this.remain := remain;
    }

    /** remain is unsigned and never wraps, whatever the bytes are. */
    method Next() returns (r: NextResult)
      modifies this, br
      ensures (r, br.rest, remain) == NextOf(old(br.rest), old(remain))
      ensures remain <= old(remain)
    {
      if remain < RECORD_HEADER_LEN {
        return End;
      }
      ghost var s := br.rest;
      var rh, ok := br.ReadFull(RECORD_HEADER_LEN);
      if !ok {
        return ReadError;
      }
      SliceOfTake(s, 1, 3, 3);
      var keyLen := FromBigEndian(rh[1..3]);
      remain := remain - RECORD_HEADER_LEN;
      if keyLen > remain {
        return TruncatedRecord;
      }
      var key;
      key, ok := br.ReadFull(keyLen);
      if !ok {
        return ReadError;
      }
      assert s[3..][..keyLen] == s[3..3 + keyLen] && s[3..][keyLen..] == s[3 + keyLen..];
      remain := remain - keyLen;
      return Rec(Record(key, rh[0]));
    }
  }

  /** One record on actual bytes: mode, two length bytes, key. What is announced beyond the
      data section or found missing in the file is no record. */
  lemma {:induction false} NextOnBytes(mode: Byte, hi: Byte, lo: Byte, bytes: Key, remain: nat)
    ensures var n, r := hi * 256 + lo, NextOf([mode, hi, lo] + bytes, remain).0;
            && (remain < 3 ==> r == End)
            && (3 <= remain < 3 + n ==> r == TruncatedRecord)
            && (3 + n <= remain && |bytes| < n ==> r == ReadError)
            && (3 + n <= remain && n <= |bytes| ==>
                  NextOf([mode, hi, lo] + bytes, remain) == (Rec(Record(bytes[..n], mode)), bytes[n..], remain - 3 - n))
  {
    var s := [mode, hi, lo] + bytes;
    assert s[1..3] == [hi, lo];
    MostSignificantFirst(0, 0, hi, lo);
    var n := hi * 256 + lo;
    if n <= |bytes| {
      assert s[3..3 + n] == bytes[..n] && s[3 + n..] == bytes[n..];
    }
  }

  /** The records successive calls of Next yield before the first that is not a record. */
  function ReadAll(rest: Key, remain: nat): seq<Record>
    decreases remain
  {
    var (r, rest', remain') := NextOf(rest, remain);
    if r.Rec? then [r.rec] + ReadAll(rest', remain') else []
  }

  /** What the first other call says. */
  function ReadEnd(rest: Key, remain: nat): (NextResult, nat)
    decreases remain
  {
    var (r, rest', remain') := NextOf(rest, remain);
    if r.Rec? then ReadEnd(rest', remain') else (r, remain')
  }

  // ---------------------------------------------------------------- round trip

  ghost predicate ShortKeys(recs: seq<Record>) {
    forall i :: 0 <= i < |recs| ==> |recs[i].key| < 0x1_0000
  }

  lemma {:induction false} RecordSlices(r: Record, tail: Key)
    ensures var s := RecordBytes(r) + tail;
            && |s| == 3 + |r.key| + |tail| && s[0] == r.mode && s[1..3] == BigEndian(|r.key|, 2)
            && s[3..] == r.key + tail && s[3..3 + |r.key|] == r.key && s[3 + |r.key|..] == tail
  {
    RecordShape([r.mode], BigEndian(|r.key|, 2), r.key, tail);
  }

  lemma {:induction false} RecordShape(m: Key, len: Key, key: Key, tail: Key)
    requires |m| == 1 && |len| == 2
    ensures var s := (m + len + key) + tail;
            && |s| == 3 + |key| + |tail| && s[0] == m[0] && s[1..3] == len
            && s[3..] == key + tail && s[3..3 + |key|] == key && s[3 + |key|..] == tail
  {
  }

  lemma {:induction false} NextOfRecord(r: Record, tail: Key, remain: nat)
    requires |r.key| < 0x1_0000 && |RecordBytes(r)| <= remain
    ensures NextOf(RecordBytes(r) + tail, remain) == (Rec(r), tail, remain - |RecordBytes(r)|)
  {
    RecordSlices(r, tail);
    Pow256Values();
    BigEndianRoundTrip(|r.key|, 2);
  }

  /** Reading a payload gives back its records and ends cleanly on the last byte. */
  lemma {:induction false} PayloadRoundTrip(recs: seq<Record>)
    requires ShortKeys(recs)
    ensures ReadAll(Payload(recs), |Payload(recs)|) == recs
    ensures ReadEnd(Payload(recs), |Payload(recs)|) == (End, 0)
    decreases |recs|
  {
    if recs != [] {
      NextOfRecord(recs[0], Payload(recs[1..]), |Payload(recs)|);
      hide NextOf, RecordBytes;
      PayloadRoundTrip(recs[1..]);
      assert recs == [recs[0]] + recs[1..];
    }
  }

  /** A key of 2^16 bytes or more is written with a truncated length and read back short. */
  lemma {:induction false} LongKeyReadShort(r: Record, tail: Key, remain: nat)
    requires |r.key| >= 0x1_0000
    ensures NextOf(RecordBytes(r) + tail, remain).0 != Rec(r)
  {
    RecordSlices(r, tail);
    FromBigEndianBound(BigEndian(|r.key|, 2));
    Pow256Values();
  }

  /** A payload read to its end gives its records back exactly when no key is longer than
      its length field can say. */
  lemma {:induction false} PayloadReadsExactly(recs: seq<Record>)
    ensures ReadAll(Payload(recs), |Payload(recs)|) == recs <==> ShortKeys(recs)
    decreases |recs|
  {
    if ShortKeys(recs) {
      PayloadRoundTrip(recs);
    } else {
      var n := |Payload(recs)|;
      var got := ReadAll(Payload(recs), n);
      if |recs[0].key| >= 0x1_0000 {
        LongKeyReadShort(recs[0], Payload(recs[1..]), n);
        assert got != [] ==> got[0] != recs[0];
      } else {
        NextOfRecord(recs[0], Payload(recs[1..]), n);
        PayloadReadsExactly(recs[1..]);
        assert got[1..] == ReadAll(Payload(recs[1..]), |Payload(recs[1..])|);
        var i :| 0 <= i < |recs| && |recs[i].key| >= 0x1_0000;
        assert recs[1..][i - 1] == recs[i];
      }
    }
  }

  /** WriteRun's bytes: the file is the preamble, the validator and the compacted records. */
  method EncodeRun(v: Validator, recs: seq<Record>) returns (file: Key, ghost kept: seq<Record>)
    ensures IsCompaction(recs, kept)
    ensures file == RunBytes(v, kept)
    ensures forall k :: IsCompaction(recs, k) ==> file == RunBytes(v, k)
  {
    var w := new Writer();
    WritePreamble(w);
    WriteValidator(w, v);
    kept := WriteData(w, recs);
    file := w.out;
    assert [] + PREAMBLE == PREAMBLE;
    ConcatAssoc(PREAMBLE, ValidatorBytes(v), DataBytes(kept));
    forall k | IsCompaction(recs, k)
      ensures file == RunBytes(v, k)
    {
      CompactionUnique(recs, k, kept);
    }
  }

  /** Opening a written run gives the validator back, and reading it the compacted records. */
  lemma {:induction false} RunRoundTrip(v: Validator, kept: seq<Record>)
    requires Fits(v) && ShortKeys(kept) && |Payload(kept)| < 0x1_0000_0000
    ensures var h := ParseHeader(RunBytes(v, kept));
            && h.Header? && h.v == v
            && ReadAll(h.rest, h.dataLen) == kept && ReadEnd(h.rest, h.dataLen) == (End, 0)
  {
    HeaderRoundTrip(v, kept);
    PayloadRoundTrip(kept);
  }

  /** What is read within a budget never encodes to more than the budget. */
  lemma {:induction false} ReadWithinBudget(rest: Key, remain: nat)
    ensures |Payload(ReadAll(rest, remain))| <= remain
    decreases remain
  {
    var (r, rest', remain') := NextOf(rest, remain);
    if r.Rec? {
      ReadWithinBudget(rest', remain');
      assert |RecordBytes(r.rec)| == remain - remain';
      var tail := ReadAll(rest', remain');
      assert ([r.rec] + tail)[1..] == tail;
    }
  }

  /** A payload of 2^32 bytes or more is announced with a truncated length and cut short. */
  lemma {:induction false} LongPayloadReadShort(v: Validator, kept: seq<Record>)
    requires Fits(v) && |Payload(kept)| >= 0x1_0000_0000
    ensures var h := ParseHeader(RunBytes(v, kept)); h.Header? && ReadAll(h.rest, h.dataLen) != kept
  {
    LongPayloadHeader(v, kept);
    hide *;
    var h := ParseHeader(RunBytes(v, kept));
    ReadWithinBudget(h.rest, h.dataLen);
  }

  /** A run file reads back exactly when its keys and its payload fit their length fields. */
  lemma {:induction false} RoundTripExactly(v: Validator, kept: seq<Record>)
    requires Fits(v)
    ensures var h := ParseHeader(RunBytes(v, kept));
            h.Header? && h.v == v && ReadAll(h.rest, h.dataLen) == kept
            <==> ShortKeys(kept) && |Payload(kept)| < 0x1_0000_0000
  {
    hide *;
    if |Payload(kept)| < 0x1_0000_0000 {
      HeaderRoundTrip(v, kept);
      PayloadReadsExactly(kept);
    } else {
      LongPayloadReadShort(v, kept);
    }
  }

  /** Reads a whole run as openRuns' cursor does: an error ends it like its last record. */
  method DecodeRun(file: Key) returns (h: Header, recs: seq<Record>)
    ensures h == ParseHeader(file)
    ensures recs == if h.Header? then ReadAll(h.rest, h.dataLen) else []
  {
    var br := new Stream(file);
    h := ReadHeader(br);
    recs := [];
    if !h.Header? {
      return;
    }
    var rr := new RunReader(br, h.dataLen);
    while true
      invariant recs + ReadAll(br.rest, rr.remain) == ReadAll(h.rest, h.dataLen)
      invariant rr.br == br
      decreases rr.remain
    {
      ghost var before := rr.remain;
      var r := rr.Next();
      match r
      case Rec(rec) => recs := recs + [rec];
      case _ => break;
    }
  }

  /** The saved index; what LoadFST finds in it is what was saved. */
  method SaveFst(data: Key) returns (file: Key)
    ensures file == PREAMBLE + Section(SEC_DATA, data)
    ensures |data| < 0x1_0000_0000 ==> SectionIn(file, SEC_DATA) == Found(data)
  {
    var w := new Writer();
    WritePreamble(w);
    WriteSection(w, SEC_DATA, data);
    file := w.out;
    assert [] + PREAMBLE == PREAMBLE;
    if |data| < 0x1_0000_0000 {
      IndexRoundTrip(data);
    }
  }
}
