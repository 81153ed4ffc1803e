// Writing and reading runs (format.go, store.go). The writers append to a stream, the readers
// consume one; both are proved against the byte-level functions of Format.
module Store {
  import opened Bytes
  import opened Format

  // ---------------------------------------------------------------- writers

  class Writer {
    var out: Key

    constructor ()
      ensures out == []
    {
      out := [];
    }

    method Write(b: Key)
      modifies this
      ensures out == old(out) + b
    {
      out := out + b;
    }
  }

  method WritePreamble(w: Writer)
    modifies w
    ensures w.out == old(w.out) + PREAMBLE
  {
    w.Write(MAGIC);
    w.Write([FORMAT_VERSION]);
  }

  method WriteSection(w: Writer, typ: Byte, value: Key)
    modifies w
    ensures w.out == old(w.out) + Section(typ, value)
  {
    w.Write([typ] + BigEndian(|value|, 4));
    w.Write(value);
  }

  method WriteStr(w: Writer, typ: Byte, s: Key)
    modifies w
    ensures w.out == old(w.out) + StrSection(typ, s)
  {
    if s == [] {
      assert w.out == w.out + [];
      return;
    }
    WriteSection(w, typ, s);
  }

  method WriteNum(w: Writer, typ: Byte, n: i64)
    modifies w
    ensures w.out == old(w.out) + NumSection(typ, n)
  {
    if n == 0 {
      assert w.out == w.out + [];
      return;
    }
    WriteSection(w, typ, BigEndian(ToU64(n), 8));
  }

  method WriteValidator(w: Writer, v: Validator)
    modifies w
    ensures w.out == old(w.out) + ValidatorBytes(v)
  {
    hide StrSection, NumSection;
    WriteStr(w, SEC_ETAG, v.etag);
    WriteStr(w, SEC_LAST_MODIFIED, v.lastModified);
    WriteNum(w, SEC_MTIME, v.mtime);
    WriteNum(w, SEC_SIZE, v.size);
    WriteStr(w, SEC_FINGERPRINT, v.fingerprint);
  }

  // ---------------------------------------------------------------- sorting and compaction

  /** The comparison of writeData: by key, and equal keys by falling mode. */
  predicate Before(a: Record, b: Record) {
    Less(a.key, b.key) || (a.key == b.key && a.mode >= b.mode)
  }

  ghost predicate Sorted(s: seq<Record>) {
    forall i, j :: 0 <= i < j < |s| ==> Before(s[i], s[j])
  }

  lemma {:induction false} BeforeTransitive(a: Record, b: Record, c: Record)
    requires Before(a, b) && Before(b, c)
    ensures Before(a, c)
  {
    if Less(a.key, b.key) && Less(b.key, c.key) {
      LessTransitive(a.key, b.key, c.key);
    }
  }

  lemma {:induction false} BeforeTotal(a: Record, b: Record)
    ensures Before(a, b) || Before(b, a)
  {
    LessTotal(a.key, b.key);
  }

  /** What slices.SortFunc promises. */
  method SortFunc(recs: seq<Record>) returns (s: seq<Record>)
    ensures Sorted(s) && multiset(s) == multiset(recs)
  {
    s := [];
    for n := 0 to |recs|
      invariant Sorted(s) && multiset(s) == multiset(recs[..n])
    {
      s := InsertSorted(s, recs[n]);
      assert recs[..n + 1] == recs[..n] + [recs[n]];
    }
    assert recs[..|recs|] == recs;
  }

  method InsertSorted(s: seq<Record>, r: Record) returns (t: seq<Record>)
    requires Sorted(s)
    ensures Sorted(t) && multiset(t) == multiset(s) + multiset{r}
  {
    var i := 0;
    while i < |s| && Before(s[i], r)
      invariant i <= |s|
      invariant forall j :: 0 <= j < i ==> Before(s[j], r)
    {
      i := i + 1;
    }
    t := s[..i] + [r] + s[i..];
    assert multiset(t) == multiset(s) + multiset{r} by {
      assert s == s[..i] + s[i..];
    }
    forall j | i <= j < |s|
      ensures Before(r, s[j])
    {
      BeforeTotal(r, s[i]);
      if i < j {
        BeforeTransitive(r, s[i], s[j]);
      }
    }
    SortedWith(s, i, r);
  }

  lemma {:induction false} SortedWith(s: seq<Record>, i: nat, r: Record)
    requires Sorted(s) && i <= |s|
    requires forall j :: 0 <= j < i ==> Before(s[j], r)
    requires forall j :: i <= j < |s| ==> Before(r, s[j])
    ensures Sorted(s[..i] + [r] + s[i..])
  {
    hide Before;
    var t := s[..i] + [r] + s[i..];
    forall j {:trigger t[j]} | 0 <= j < |t|
      ensures t[j] == if j < i then s[j] else if j == i then r else s[j - 1]
    {
    }
  }

  ghost predicate AscendingKeys(recs: seq<Record>) {
    forall i, j :: 0 <= i < j < |recs| ==> Less(recs[i].key, recs[j].key)
  }

  /** Every key once, in order, with the largest mode any record gives it. */
  ghost predicate IsCompaction(recs: seq<Record>, kept: seq<Record>) {
    && AscendingKeys(kept)
    && (forall r :: r in kept ==> r in recs)
    && (forall r :: r in recs ==> Kept(kept, r))
  }

  /** The key of r is there with a mode at least as large. */
  ghost predicate Kept(kept: seq<Record>, r: Record) {
    exists k :: k in kept && k.key == r.key && k.mode >= r.mode
  }

  /** Which determines the result. */
  lemma {:induction false} CompactionUnique(recs: seq<Record>, a: seq<Record>, b: seq<Record>)
    requires IsCompaction(recs, a) && IsCompaction(recs, b)
    ensures a == b
  {
    CompactionCovers(recs, a, b);
    CompactionCovers(recs, b, a);
    SameMembersSame(a, b);
  }

  lemma {:induction false} CompactionCovers(recs: seq<Record>, a: seq<Record>, b: seq<Record>)
    requires IsCompaction(recs, a) && IsCompaction(recs, b)
    ensures forall r :: r in a ==> r in b
  {
    hide AscendingKeys, Kept;
    forall r | r in a
      ensures r in b
    {
      var k := KeptBy(b, r);
      var l := KeptBy(a, k);
      OneRecordPerKey(a, r, l);
    }
  }

  lemma {:induction false} KeptBy(kept: seq<Record>, r: Record) returns (k: Record)
    requires Kept(kept, r)
    ensures k in kept && k.key == r.key && k.mode >= r.mode
  {
    k :| k in kept && k.key == r.key && k.mode >= r.mode;
  }

  lemma {:induction false} OneRecordPerKey(a: seq<Record>, r: Record, l: Record)
    requires AscendingKeys(a) && r in a && l in a && r.key == l.key
    ensures r == l
  {
    var i :| 0 <= i < |a| && a[i] == r;
    var j :| 0 <= j < |a| && a[j] == l;
    LessIrreflexive(r.key);
  }

  lemma {:induction false} SameMembersSame(a: seq<Record>, b: seq<Record>)
    requires AscendingKeys(a) && AscendingKeys(b)
    requires forall r :: r in a <==> r in b
    ensures a == b
    decreases |a|
  {
    assert forall i :: 0 <= i < |a| ==> a[i] in b;
    assert forall i :: 0 <= i < |b| ==> b[i] in a;
    if a != [] {
      FirstSame(a, b);
      TailMembers(a, b);
      TailMembers(b, a);
      SameMembersSame(a[1..], b[1..]);
      assert a == [a[0]] + a[1..] && b == [b[0]] + b[1..];
    }
  }

  lemma {:induction false} FirstSame(a: seq<Record>, b: seq<Record>)
    requires AscendingKeys(a) && AscendingKeys(b) && a != [] && b != []
    requires a[0] in b && b[0] in a
    ensures a[0] == b[0]
  {
    var i :| 0 <= i < |b| && b[i] == a[0];
    var j :| 0 <= j < |a| && a[j] == b[0];
    if 0 < i && 0 < j {
      assert Less(b[0].key, b[i].key) && Less(a[0].key, a[j].key);
      LessAsymmetric(b[0].key, b[i].key);
    }
  }

  lemma {:induction false} TailMembers(a: seq<Record>, b: seq<Record>)
    requires AscendingKeys(a) && a != [] && b != [] && a[0] == b[0]
    requires forall r :: r in a ==> r in b
    ensures forall r :: r in a[1..] ==> r in b[1..]
  {
    forall r | r in a[1..]
      ensures r in b[1..]
    {
      var i :| 0 <= i < |a[1..]| && a[1..][i] == r;
      assert Less(a[0].key, a[i + 1].key);
      LessIrreflexive(a[0].key);
      assert r in a;
      var j :| 0 <= j < |b| && b[j] == r;
      assert j > 0;
      assert b[1..][j - 1] == r;
    }
  }

  /** slices.CompactFunc on equal keys: the first record of each block stays. */
  method Compact(recs: seq<Record>, s: seq<Record>) returns (kept: seq<Record>)
    requires Sorted(s) && multiset(s) == multiset(recs)
    ensures IsCompaction(recs, kept)
  {
    kept := [];
    CompactedNone(s);
    hide CompactedTo, Sorted, IsCompaction, Kept, AscendingKeys;
    for n := 0 to |s|
      invariant CompactedTo(s, n, kept)
    {
      if kept == [] || kept[|kept| - 1].key != s[n].key {
        CompactNew(s, kept, n);
        kept := kept + [s[n]];
      } else {
        CompactRepeat(s, kept, n);
      }
    }
    CompactDone(recs, s, kept);
  }

  lemma {:induction false} CompactDone(recs: seq<Record>, s: seq<Record>, kept: seq<Record>)
    requires multiset(s) == multiset(recs) && CompactedTo(s, |s|, kept)
    ensures IsCompaction(recs, kept)
  {
    hide AscendingKeys, Kept;
    forall r | r in recs
      ensures Kept(kept, r)
    {
      assert r in multiset(recs);
      var i :| 0 <= i < |s| && s[i] == r;
    }
    forall r | r in kept
      ensures r in recs
    {
      assert r in multiset(s);
    }
  }

  /** Everything read so far is accounted for by what is kept. */
  ghost predicate CompactedTo(s: seq<Record>, n: nat, kept: seq<Record>) {
    && n <= |s| && AscendingKeys(kept)
    && MembersOf(kept, s)
    && (if n == 0 then kept == [] else EndsAt(kept, s[n - 1]))
    && AllKept(s, n, kept)
  }

  ghost predicate AllKept(s: seq<Record>, n: nat, kept: seq<Record>)
    requires n <= |s|
  {
    forall i :: 0 <= i < n ==> Kept(kept, s[i])
  }

  ghost predicate MembersOf(a: seq<Record>, b: seq<Record>) {
    forall r :: r in a ==> r in b
  }

  lemma {:induction false} CompactedNone(s: seq<Record>)
    ensures CompactedTo(s, 0, [])
  {
    assert AscendingKeys([]) && MembersOf([], s);
  }

  ghost predicate EndsAt(kept: seq<Record>, r: Record) {
    kept != [] && kept[|kept| - 1].key == r.key && kept[|kept| - 1].mode >= r.mode
  }

  /** A record with a new key goes to the end. */
  lemma {:induction false} CompactNew(s: seq<Record>, kept: seq<Record>, n: nat)
    requires Sorted(s) && n < |s| && CompactedTo(s, n, kept)
    requires kept == [] || kept[|kept| - 1].key != s[n].key
    ensures CompactedTo(s, n + 1, kept + [s[n]])
  {
    hide Before, Sorted, AscendingKeys, EndsAt, MembersOf, AllKept;
    NewKeyAbove(s, kept, n);
    AscendingSnoc(kept, s[n]);
    MembersSnoc(s, kept, n);
    EndsAtSnoc(kept, s[n]);
    AllKeptSnoc(s, n, kept);
  }

  lemma {:induction false} AllKeptSnoc(s: seq<Record>, n: nat, kept: seq<Record>)
    requires n < |s| && AllKept(s, n, kept)
    ensures AllKept(s, n + 1, kept + [s[n]])
  {
    hide Kept;
    KeptLast(kept, s[n]);
    forall i | 0 <= i < n
      ensures Kept(kept + [s[n]], s[i])
    {
      KeptMore(kept, kept + [s[n]], s[i]);
    }
  }

  lemma {:induction false} NewKeyAbove(s: seq<Record>, kept: seq<Record>, n: nat)
    requires Sorted(s) && n < |s| && CompactedTo(s, n, kept)
    requires kept == [] || kept[|kept| - 1].key != s[n].key
    ensures forall i :: 0 <= i < |kept| ==> Less(kept[i].key, s[n].key)
  {
    hide Kept, MembersOf, AscendingKeys;
    if n > 0 {
      assert Before(s[n - 1], s[n]);
      LastIsLargest(kept, s[n].key);
    }
  }

  lemma {:induction false} AscendingSnoc(kept: seq<Record>, r: Record)
    requires AscendingKeys(kept) && forall i :: 0 <= i < |kept| ==> Less(kept[i].key, r.key)
    ensures AscendingKeys(kept + [r])
  {
  }

  lemma {:induction false} MembersSnoc(s: seq<Record>, kept: seq<Record>, n: nat)
    requires n < |s| && MembersOf(kept, s)
    ensures MembersOf(kept + [s[n]], s)
  {
  }

  lemma {:induction false} EndsAtSnoc(kept: seq<Record>, r: Record)
    ensures EndsAt(kept + [r], r)
  {
  }

  lemma {:induction false} KeptLast(kept: seq<Record>, r: Record)
    ensures Kept(kept + [r], r)
  {
    assert (kept + [r])[|kept|] == r;
  }

  lemma {:induction false} KeptMore(kept: seq<Record>, kept': seq<Record>, r: Record)
    requires Kept(kept, r) && kept <= kept'
    ensures Kept(kept', r)
  {
    var k :| k in kept && k.key == r.key && k.mode >= r.mode;
    assert k in kept';
  }

  lemma {:induction false} LastIsLargest(kept: seq<Record>, key: Key)
    requires AscendingKeys(kept) && kept != [] && Less(kept[|kept| - 1].key, key)
    ensures forall i :: 0 <= i < |kept| ==> Less(kept[i].key, key)
  {
    var last := |kept| - 1;
    forall i | 0 <= i < |kept|
      ensures Less(kept[i].key, key)
    {
      if i < last {
        LessTransitive(kept[i].key, kept[last].key, key);
      }
    }
  }

  /** A record with the last key is covered by the one already there. */
  lemma {:induction false} CompactRepeat(s: seq<Record>, kept: seq<Record>, n: nat)
    requires Sorted(s) && n < |s| && CompactedTo(s, n, kept)
    requires kept != [] && kept[|kept| - 1].key == s[n].key
    ensures CompactedTo(s, n + 1, kept)
  {
    assert Before(s[n - 1], s[n]);
    LessIrreflexive(s[n].key);
    assert kept[|kept| - 1] in kept;
    hide AscendingKeys, Sorted;
  }

  /** Sorts and compacts, then writes the data section. */
  method WriteData(w: Writer, recs: seq<Record>) returns (ghost kept: seq<Record>)
    modifies w
    ensures IsCompaction(recs, kept)
    ensures w.out == old(w.out) + DataBytes(kept)
  {
    var s := SortFunc(recs);
    var c := Compact(recs, s);
    kept := c;
    var dataLen := DataLen(c);
    w.Write([SEC_DATA] + BigEndian(dataLen, 4));
    WriteRecords(w, c);
  }

  method DataLen(recs: seq<Record>) returns (dataLen: nat)
    ensures dataLen == |Payload(recs)|
  {
    dataLen := 0;
    for i := 0 to |recs|
      invariant dataLen == |Payload(recs[..i])|
    {
      PayloadStep(recs, i);
      hide Payload;
      dataLen := dataLen + (RECORD_HEADER_LEN + |recs[i].key|);
    }
    assert recs[..|recs|] == recs;
  }

  method WriteRecords(w: Writer, recs: seq<Record>)
    modifies w
    ensures w.out == old(w.out) + Payload(recs)
  {
    assert recs[..|recs|] == recs;
    assert Payload([]) == [];
    hide Payload, RecordBytes;
    for i := 0 to |recs|
      invariant w.out == old(w.out) + Payload(recs[..i])
    {
      PayloadStep(recs, i);
      RecordParts(recs[i]);
      ConcatAssoc(Payload(recs[..i]), [recs[i].mode] + BigEndian(|recs[i].key|, 2), recs[i].key);
      ConcatAssoc(old(w.out), Payload(recs[..i]), RecordBytes(recs[i]));
      ghost var before := w.out;
      w.Write([recs[i].mode] + BigEndian(|recs[i].key|, 2));
      w.Write(recs[i].key);
      ConcatAssoc(before, [recs[i].mode] + BigEndian(|recs[i].key|, 2), recs[i].key);
    }
  }

  lemma {:induction false} RecordParts(r: Record)
    ensures RecordBytes(r) == [r.mode] + BigEndian(|r.key|, 2) + r.key
  {
  }

  lemma {:induction false} PayloadStep(recs: seq<Record>, i: nat)
    requires i < |recs|
    ensures Payload(recs[..i + 1]) == Payload(recs[..i]) + RecordBytes(recs[i])
  {
    assert recs[..i + 1] == recs[..i] + [recs[i]];
    PayloadSnoc(recs[..i], recs[i]);
  }

  lemma {:induction false} PayloadSnoc(recs: seq<Record>, r: Record)
    ensures Payload(recs + [r]) == Payload(recs) + RecordBytes(r)
    decreases |recs|
  {
    if recs == [] {
      assert [] + [r] == [r] && [r][1..] == [];
      assert RecordBytes(r) + [] == [] + RecordBytes(r);
    } else {
      assert (recs + [r])[1..] == recs[1..] + [r];
      PayloadSnoc(recs[1..], r);
      ConcatAssoc(RecordBytes(recs[0]), Payload(recs[1..]), RecordBytes(r));
    }
  }
}
