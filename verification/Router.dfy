// Sources, their stored runs and the served matcher (source.go, store.go, router.go): when a
// rebuild may skip compiling, and what the served matcher answers.
module Router {
  import opened Bytes
  import opened Actions
  import opened Lookup
  import opened Matcher
  import Merge
  import Labels
  import D = DomainLookup
  import F = Format
  import S = Store
  import R = Reader

  datatype Source = Source(name: Key, action: Action, prune: bool, fingerprint: Key)
  datatype ListEntry = ListEntry(domain: Key, subdomains: bool)

  datatype Download = Download(v: F.Validator, entries: seq<ListEntry>)

  /** How refreshing a source would go now: which validators it calls current, what an
      unconditional fetch and parse come to, and whether a run can be written. */
  datatype Fetch = Fetch(current: F.Validator -> bool, got: Option<Download>, writes: bool)

  /** What the disk allows: whether the index can be saved, and which runs cannot be removed. */
  datatype Disk = Disk(saves: bool, stuck: set<Key>)

  datatype Round = Round(fetches: seq<Fetch>, disk: Disk)

  datatype Reply = NotModified | Failed | Fetched(v: F.Validator, entries: seq<ListEntry>)

  datatype RefreshResult = Unchanged | Updated | Stale | Missing

  // ---------------------------------------------------------------- entries, records, runs

  /** Normalised domains are non-empty and do not end in a dot. */
  ghost predicate Normalised(entries: seq<ListEntry>) {
    forall i :: 0 <= i < |entries| ==>
      entries[i].domain != [] && entries[i].domain[|entries[i].domain| - 1] != DOT
  }

  function ModeByte(m: MatchMode): Byte {
    match m case MatchNone => 0 case MatchExact => 1 case MatchPrefix => 2
  }

  function ModeOfByte(b: Byte): MatchMode {
    if b == 1 then MatchExact else if b == 2 then MatchPrefix else MatchNone
  }

  function RecordOf(e: ListEntry): F.Record {
    F.Record(Labels.Reverse(e.domain), ModeByte(if e.subdomains then MatchPrefix else MatchExact))
  }

  method ToRecords(entries: seq<ListEntry>) returns (recs: seq<F.Record>)
    ensures RecordsOf(entries, recs)
  {
    recs := [];
    for i := 0 to |entries|
      invariant |recs| == i && forall j :: 0 <= j < i ==> recs[j] == RecordOf(entries[j])
    {
      var mode := ModeByte(MatchExact);
      if entries[i].subdomains {
        mode := ModeByte(MatchPrefix);
      }
      var key := Labels.ReverseLabels(entries[i].domain);
      recs := recs + [F.Record(key, mode)];
    }
  }

  /** Records a run may hold: non-empty keys that fit their length field, modes 1 and 2. */
  ghost predicate Storable(recs: seq<F.Record>) {
    R.ShortKeys(recs) && forall i :: 0 <= i < |recs| ==> recs[i].key != [] && (recs[i].mode == 1 || recs[i].mode == 2)
  }

  /** A file as WriteRun leaves it, within the widths of its length fields. */
  ghost predicate IsRun(file: Key, v: F.Validator, kept: seq<F.Record>) {
    && file == F.RunBytes(v, kept)
    && F.Fits(v) && |F.Payload(kept)| < 0x1_0000_0000
    && S.AscendingKeys(kept) && Storable(kept)
  }

  ghost predicate WellFormed(runs: map<Key, Key>) {
    forall name :: name in runs ==> exists v, kept :: IsRun(runs[name], v, kept)
  }

  function RunRecords(recs: seq<F.Record>): (r: seq<Merge.Record>)
    ensures |r| == |recs|
    ensures forall i :: 0 <= i < |recs| ==> r[i] == Merge.Record(recs[i].key, ModeOfByte(recs[i].mode))
  {
    if recs == [] then [] else [Merge.Record(recs[0].key, ModeOfByte(recs[0].mode))] + RunRecords(recs[1..])
  }

  /** The source as openRuns hands it to the merge, if its run opens. */
  function OpenedOne(s: Source, runs: map<Key, Key>): seq<Merge.RunSource> {
    if s.name !in runs then []
    else
      var h := F.ParseHeader(runs[s.name]);
      if h.Header? then [Merge.RunSource(RunRecords(R.ReadAll(h.rest, h.dataLen)), s.action, s.prune)] else []
  }

  function Opened(sources: seq<Source>, runs: map<Key, Key>): seq<Merge.RunSource> {
    if sources == [] then []
    else Opened(sources[..|sources| - 1], runs) + OpenedOne(sources[|sources| - 1], runs)
  }

  /** Well-formed runs meet everything the merge and the indexes rely on. */
  lemma {:induction false} OpenedRunIsSorted(s: Source, runs: map<Key, Key>)
    requires WellFormed(runs)
    ensures Merge.SortedRuns(OpenedOne(s, runs)) && StorableRuns(OpenedOne(s, runs))
  {
    hide F.RunBytes, F.ParseHeader, R.ReadAll, R.ReadEnd, F.Payload;
    if s.name in runs {
      var v, kept :| IsRun(runs[s.name], v, kept);
      R.RunRoundTrip(v, kept);
      assert OpenedOne(s, runs) == [Merge.RunSource(RunRecords(kept), s.action, s.prune)];
      KeptIsSorted(kept, s.action, s.prune);
    }
  }

  lemma {:induction false} KeptIsSorted(kept: seq<F.Record>, action: Action, prune: bool)
    requires S.AscendingKeys(kept) && Storable(kept)
    ensures var srcs := [Merge.RunSource(RunRecords(kept), action, prune)];
            Merge.SortedRuns(srcs) && StorableRuns(srcs)
  {
    var recs := RunRecords(kept);
    hide Less;
    assert Merge.Ascending(recs);
    assert forall r :: 0 <= r < |recs| ==> recs[r].key != [] && recs[r].mode != MatchNone;
  }

  lemma {:induction false} OpenedIsSorted(sources: seq<Source>, runs: map<Key, Key>)
    requires WellFormed(runs)
    ensures Merge.SortedRuns(Opened(sources, runs)) && StorableRuns(Opened(sources, runs))
    decreases |sources|
  {
    if sources != [] {
      var n := |sources| - 1;
      OpenedIsSorted(sources[..n], runs);
      OpenedRunIsSorted(sources[n], runs);
      AllSorted(Opened(sources[..n], runs), OpenedOne(sources[n], runs));
      hide OpenedOne, Merge.SortedRuns, StorableRuns;
    }
  }

  lemma {:induction false} AllSorted(a: seq<Merge.RunSource>, b: seq<Merge.RunSource>)
    requires Merge.SortedRuns(a) && StorableRuns(a) && Merge.SortedRuns(b) && StorableRuns(b)
    ensures Merge.SortedRuns(a + b) && StorableRuns(a + b)
  {
    hide Merge.Ascending;
    forall i | 0 <= i < |a + b|
      ensures (a + b)[i] == if i < |a| then a[i] else b[i - |a|]
    {
    }
  }

  // ---------------------------------------------------------------- the store

  /** The state directory: run files by source name, and the saved index. Writing replaces a
      whole file or changes nothing; removing may fail. */
  class RunStore {
    var runs: map<Key, Key>
    var index: Option<map<Key, nat>>

    constructor (runs: map<Key, Key>, index: Option<map<Key, nat>>)
      ensures this.runs == runs && this.index == index
    {
      this.runs := runs;
      this.index := index;
    }

    method WriteRun(name: Key, v: F.Validator, recs: seq<F.Record>, works: bool) returns (ok: bool, ghost kept: seq<F.Record>)
      modifies this`runs
      ensures ok == works
      ensures S.IsCompaction(recs, kept)
      ensures runs == if ok then old(runs)[name := F.RunBytes(v, kept)] else old(runs)
    {
      var file;
      file, kept := R.EncodeRun(v, recs);
      ok := works;
      if ok {
        runs := runs[name := file];
      }
    }

    /** Removes the runs of names not listed, as far as they can be, and counts them. */
    method Retain(names: set<Key>, stuck: set<Key>) returns (removed: nat, ghost complete: bool)
      modifies this`runs
      ensures runs.Keys == old(runs).Keys * (names + stuck) && forall n :: n in runs ==> runs[n] == old(runs)[n]
      ensures removed == |old(runs)| - |runs|
      ensures complete <==> runs.Keys <= names
    {
      removed := 0;
      var todo := runs.Keys;
      while todo != {}
        invariant todo <= runs.Keys <= old(runs).Keys
        invariant forall n :: n in runs ==> runs[n] == old(runs)[n]
        invariant forall n :: n in old(runs) && (n in names || n in stuck) ==> n in runs
        invariant forall n :: n in runs && n !in todo ==> n in names || n in stuck
        invariant removed == |old(runs)| - |runs|
        decreases todo
      {
        var n :| n in todo;
        todo := todo - {n};
        if n !in names && n !in stuck {
          ghost var before := runs;
          runs := runs - {n};
          assert before == runs[n := before[n]];
          removed := removed + 1;
        }
      }
      complete := runs.Keys <= names;
    }

    method SaveIndex(fst: map<Key, nat>, works: bool) returns (ok: bool)
      modifies this`index
      ensures ok == works
      ensures index == if ok then Some(fst) else old(index)
    {
      ok := works;
      if ok {
        index := Some(fst);
      }
    }
  }

  // ---------------------------------------------------------------- refreshing a source

  /** Entries whose records fit the run format. */
  ghost predicate Writable(v: F.Validator, entries: seq<ListEntry>) {
    && F.Fits(v) && Normalised(entries)
    && (forall i :: 0 <= i < |entries| ==> |Labels.Reverse(entries[i].domain)| < 0x1_0000)
    && (forall recs, kept :: RecordsOf(entries, recs) && S.IsCompaction(recs, kept) ==> |F.Payload(kept)| < 0x1_0000_0000)
  }

  ghost predicate RecordsOf(entries: seq<ListEntry>, recs: seq<F.Record>) {
    |recs| == |entries| && forall i :: 0 <= i < |recs| ==> recs[i] == RecordOf(entries[i])
  }

  lemma {:induction false} ReverseNotEmpty(d: Key)
    requires d != [] && d[|d| - 1] != DOT
    ensures Labels.Reverse(d) != []
  {
    var i := Labels.LastDot(d);
    assert i + 1 < |d|;
  }

  lemma {:induction false} WrittenIsStorable(entries: seq<ListEntry>, recs: seq<F.Record>, kept: seq<F.Record>)
    requires Normalised(entries) && RecordsOf(entries, recs) && S.IsCompaction(recs, kept)
    requires forall i :: 0 <= i < |entries| ==> |Labels.Reverse(entries[i].domain)| < 0x1_0000
    ensures S.AscendingKeys(kept) && Storable(kept)
  {
    hide Labels.Reverse, S.AscendingKeys;
    forall i | 0 <= i < |kept|
      ensures |kept[i].key| < 0x1_0000 && kept[i].key != [] && (kept[i].mode == 1 || kept[i].mode == 2)
    {
      assert kept[i] in kept;
      var j :| 0 <= j < |recs| && recs[j] == kept[i];
      ReverseNotEmpty(entries[j].domain);
    }
  }

  /** The source has a stored run whose header can be read. */
  predicate Cached(s: Source, runs: map<Key, Key>) {
    s.name in runs && F.ParseHeader(runs[s.name]).Header?
  }

  /** The validator shown to the source: that of the stored run, unless it was written under
      another fingerprint. */
  function Previous(s: Source, runs: map<Key, Key>): F.Validator {
    if Carries(s, runs) then F.ParseHeader(runs[s.name]).v else F.NO_VALIDATOR
  }

  /** The stored run carries the source's fingerprint. */
  predicate Carries(s: Source, runs: map<Key, Key>) {
    Cached(s, runs) && F.ParseHeader(runs[s.name]).v.fingerprint == s.fingerprint
  }

  /** "Not modified" answers a validator only. */
  function ReplyTo(fetch: Fetch, prev: F.Validator): Reply {
    if prev != F.NO_VALIDATOR && fetch.current(prev) then NotModified
    else match fetch.got
         case None => Failed
         case Some(d) => Fetched(d.v, d.entries)
  }

  ghost predicate WritableFetch(s: Source, fetch: Fetch) {
    fetch.got.Some? ==> Writable(fetch.got.value.v.(fingerprint := s.fingerprint), fetch.got.value.entries)
  }

  /** The source's run is what was downloaded: its entries' records, compacted, under the
      downloaded validator with the source's fingerprint. */
  ghost predicate StoredFrom(s: Source, d: Download, runs: map<Key, Key>) {
    s.name in runs && exists recs, kept ::
      && RecordsOf(d.entries, recs) && S.IsCompaction(recs, kept)
      && runs[s.name] == F.RunBytes(d.v.(fingerprint := s.fingerprint), kept)
  }

  /** What a refresh says about the stored run: it is the download, or at least of the present
      configuration, or there is none. Only a stale source may have a run of another one. */
  ghost predicate Settled(s: Source, fetch: Fetch, r: RefreshResult, runs: map<Key, Key>) {
    match r
    case Unchanged => Carries(s, runs)
    case Updated => Carries(s, runs) && fetch.got.Some? && StoredFrom(s, fetch.got.value, runs)
    case Missing => !Cached(s, runs)
    case Stale => true
  }

  /** The stored run was written under the source's fingerprint, and the source calls its
      validator current. */
  ghost predicate IsCurrent(s: Source, fetch: Fetch, runs: map<Key, Key>) {
    s.name in runs &&
    var h := F.ParseHeader(runs[s.name]);
    h.Header? && h.v.fingerprint == s.fingerprint && h.v != F.NO_VALIDATOR && fetch.current(h.v)
  }

  /** Which result a source comes to: unchanged exactly when its run is current, else whatever
      the download allows. */
  ghost predicate Answers(s: Source, fetch: Fetch, runs: map<Key, Key>, r: RefreshResult) {
    && (r == Unchanged <==> IsCurrent(s, fetch, runs))
    && (r != Unchanged ==>
          if fetch.got.Some? && fetch.got.value.entries != [] then r == if fetch.writes then Updated else Stale
          else r == if s.name in runs && F.ParseHeader(runs[s.name]).Header? then Stale else Missing)
  }

  /** Each source answered, shown the validator of its run in `runs`. */
  ghost predicate AllAnswer(sources: seq<Source>, fetches: seq<Fetch>, runs: map<Key, Key>, results: seq<RefreshResult>) {
    && |fetches| == |sources| == |results|
    && forall i :: 0 <= i < |sources| ==> Answers(sources[i], fetches[i], runs, results[i])
  }

  /** Every source calls its stored run current, and no run is without a source. */
  ghost predicate NothingNew(sources: seq<Source>, fetches: seq<Fetch>, runs: map<Key, Key>) {
    && |fetches| == |sources|
    && (forall i :: 0 <= i < |sources| ==> IsCurrent(sources[i], fetches[i], runs))
    && AllNamed(sources, runs)
  }

  ghost predicate AllNamed(sources: seq<Source>, runs: map<Key, Key>) {
    forall name :: name in runs ==> exists i :: 0 <= i < |sources| && sources[i].name == name
  }

  /** A run of no source is left only if it cannot be removed. */
  ghost predicate OnlyStuckLeft(sources: seq<Source>, runs: map<Key, Key>, stuck: set<Key>) {
    forall name :: name in runs && name !in stuck ==> exists i :: 0 <= i < |sources| && sources[i].name == name
  }

  ghost predicate OthersKept(name: Key, runs: map<Key, Key>, runs': map<Key, Key>) {
    forall n :: n != name ==> SameRun(n, runs, runs')
  }

  /** One source refreshed: the run changes only on Updated, and then it is the compaction of
      the fetched entries. */
  method Refresh(s: Source, st: RunStore, fetch: Fetch) returns (r: RefreshResult)
    requires WritableFetch(s, fetch)
    modifies st`runs
    ensures r != Updated ==> st.runs == old(st.runs)
    ensures r == Updated ==>
              fetch.got.Some? && fetch.got.value.entries != [] && StoredFrom(s, fetch.got.value, st.runs)
    ensures WellFormed(old(st.runs)) ==> WellFormed(st.runs)
    ensures Answers(s, fetch, old(st.runs), r)
    ensures Settled(s, fetch, r, st.runs) && OthersKept(s.name, old(st.runs), st.runs)
  {
    hide F.RunBytes, F.ParseHeader, WellFormed, Writable, RecordsOf, S.IsCompaction, OthersKept;
    var cached := Cached(s, st.runs);
    var reply := ReplyTo(fetch, Previous(s, st.runs));
    NothingWritten(s.name, st.runs);
    if reply.NotModified? {
      return Unchanged;
    }
    if reply.Fetched? && |reply.entries| > 0 {
      var v := reply.v.(fingerprint := s.fingerprint);
      var recs := ToRecords(reply.entries);
      var ok, kept := st.WriteRun(s.name, v, recs, fetch.writes);
      if !ok {
        return Stale;
      }
      RunStored(s, reply.v, reply.entries, recs, kept, old(st.runs));
      return Updated;
    }
    return if cached then Stale else Missing;
  }

  lemma {:induction false} NothingWritten(name: Key, runs: map<Key, Key>)
    ensures OthersKept(name, runs, runs)
  {
  }

  /** A run just written carries the source's fingerprint. */
  lemma {:induction false} RunStored(s: Source, v: F.Validator, entries: seq<ListEntry>, recs: seq<F.Record>, kept: seq<F.Record>,
                  runs: map<Key, Key>)
    requires Writable(v.(fingerprint := s.fingerprint), entries) && RecordsOf(entries, recs) && S.IsCompaction(recs, kept)
    ensures var runs' := runs[s.name := F.RunBytes(v.(fingerprint := s.fingerprint), kept)];
            && Carries(s, runs') && OthersKept(s.name, runs, runs') && StoredFrom(s, Download(v, entries), runs')
            && (WellFormed(runs) ==> WellFormed(runs'))
  {
    hide F.RunBytes, F.ParseHeader, R.ReadAll, R.ReadEnd, F.Payload, WellFormed, Writable, RecordsOf, S.IsCompaction, IsRun;
    var v' := v.(fingerprint := s.fingerprint);
    WritableIsRun(v', entries, recs, kept);
    StillWellFormed(runs, s.name, v', kept);
    RunHeader(F.RunBytes(v', kept), v', kept);
  }

  /** A downloaded run shows the download's validator under the source's fingerprint. */
  lemma {:induction false} StoredHeader(s: Source, d: Download, runs: map<Key, Key>)
    requires StoredFrom(s, d, runs) && Writable(d.v.(fingerprint := s.fingerprint), d.entries)
    ensures s.name in runs && F.ParseHeader(runs[s.name]).Header?
    ensures F.ParseHeader(runs[s.name]).v == d.v.(fingerprint := s.fingerprint)
  {
    hide F.RunBytes, F.ParseHeader, Writable, RecordsOf, S.IsCompaction, IsRun;
    var v := d.v.(fingerprint := s.fingerprint);
    var recs, kept :| RecordsOf(d.entries, recs) && S.IsCompaction(recs, kept) && runs[s.name] == F.RunBytes(v, kept);
    WritableIsRun(v, d.entries, recs, kept);
    RunHeader(runs[s.name], v, kept);
  }

  lemma {:induction false} WritableIsRun(v: F.Validator, entries: seq<ListEntry>, recs: seq<F.Record>, kept: seq<F.Record>)
    requires Writable(v, entries) && RecordsOf(entries, recs) && S.IsCompaction(recs, kept)
    ensures IsRun(F.RunBytes(v, kept), v, kept)
  {
    hide F.RunBytes, F.Payload, RecordsOf, S.IsCompaction, Labels.Reverse, Normalised, S.AscendingKeys, Storable;
    WrittenIsStorable(entries, recs, kept);
  }

  lemma {:induction false} RunHeader(file: Key, v: F.Validator, kept: seq<F.Record>)
    requires IsRun(file, v, kept)
    ensures F.ParseHeader(file).Header? && F.ParseHeader(file).v == v
  {
    hide F.RunBytes, F.ParseHeader, R.ReadAll, R.ReadEnd, F.Payload;
    R.RunRoundTrip(v, kept);
  }

  lemma {:induction false} StillWellFormed(runs: map<Key, Key>, name: Key, v: F.Validator, kept: seq<F.Record>)
    requires IsRun(F.RunBytes(v, kept), v, kept)
    ensures WellFormed(runs) ==> WellFormed(runs[name := F.RunBytes(v, kept)])
  {
    if WellFormed(runs) {
      var runs' := runs[name := F.RunBytes(v, kept)];
      forall n | n in runs'
        ensures exists v, kept :: IsRun(runs'[n], v, kept)
      {
        if n == name {
          assert IsRun(runs'[n], v, kept);
        }
      }
    }
  }

  // ---------------------------------------------------------------- the router

  /** The served matcher, by backend. */
  datatype Box = ViaRadix(rx: RadixMatcher) | ViaFst(fst: FstMatcher)

  class Router {
    const sources: seq<Source>
    const store: RunStore
    const radix: bool
    var m: Option<Box>
    ghost var entries: map<Key, Entry>

    constructor (sources: seq<Source>, store: RunStore, radix: bool)
      ensures this.sources == sources && this.store == store && this.radix == radix && m == None
    {
      this.sources := sources;
      this.store := store;
      this.radix := radix;
      this.m := None;
      this.entries := map[];
    }

    /** The served matcher answers from `entries`. */
    ghost predicate Valid()
      reads this, BoxFrame()
    {
      this !in BoxFrame() && store !in BoxFrame() &&
      match m
      case None => true
      case Some(ViaRadix(rx)) => rx.Valid() && rx.entries == entries
      case Some(ViaFst(fst)) => fst.Valid() && fst.entries == entries
    }

    ghost function BoxFrame(): set<object>
      reads this, if m.Some? && m.value.ViaRadix? then {m.value.rx, m.value.rx.root} else {}
    {
      match m
      case None => {}
      case Some(ViaRadix(rx)) => {rx, rx.root} + rx.root.Repr
      case Some(ViaFst(fst)) => {fst}
    }

    /** The served entries are those of a compilation from the runs as they are now. */
    ghost predicate InSync()
      reads this, store
    {
      m.Some? && IsMergeMap(Opened(sources, store.runs), entries)
    }

    /** The saved index is that of a compilation from the runs as they are now. */
    ghost predicate Indexed()
      reads this, store
    {
      IndexOf(sources, store.runs, store.index)
    }

    method Compile() returns (box: Box, n: nat, ghost e: map<Key, Entry>)
      requires WellFormed(store.runs)
      ensures IsMergeMap(Opened(sources, store.runs), e) && n == |e|
      ensures box.ViaRadix? ==> box.rx.Valid() && box.rx.entries == e
      ensures box.ViaRadix? ==> fresh({box.rx, box.rx.root} + box.rx.root.Repr)
      ensures box.ViaFst? ==> box.fst.Valid() && box.fst.entries == e
      ensures box.ViaRadix? <==> radix
    {
      var srcs := OpenRuns();
      OpenedIsSorted(sources, store.runs);
      if radix {
        var rx;
        rx, n := BuildRadix(srcs);
        return ViaRadix(rx), n, rx.entries;
      } else {
        var fst, ok;
        fst, n, ok := BuildFST(srcs);
        return ViaFst(fst), n, fst.entries;
      }
    }

    method OpenRuns() returns (srcs: seq<Merge.RunSource>)
      ensures srcs == Opened(sources, store.runs)
    {
      srcs := [];
      for i := 0 to |sources|
        invariant srcs == Opened(sources[..i], store.runs)
      {
        assert sources[..i + 1][..i] == sources[..i];
        var s := sources[i];
        if s.name in store.runs {
          var h, recs := R.DecodeRun(store.runs[s.name]);
          if h.Header? {
            srcs := srcs + [Merge.RunSource(RunRecords(recs), s.action, s.prune)];
          }
        }
      }
      assert sources[..|sources|] == sources;
    }

    /** One fetch outcome per source, each within the run format. */
    ghost predicate WritableRound(fetches: seq<Fetch>) {
      |fetches| == |sources| && forall i :: 0 <= i < |sources| ==> WritableFetch(sources[i], fetches[i])
    }

    /** Refreshes every source, drops the runs of others, and compiles if anything changed or
        nothing is served yet. The served matcher is in sync afterwards exactly when the
        router compiled or was in sync before. The saved index changes only if it is replaced
        by that of the new matcher. */
    method Rebuild(fetches: seq<Fetch>, disk: Disk)
      returns (compiled: bool, saved: bool, ghost results: seq<RefreshResult>, removed: nat, ghost complete: bool)
      requires Valid() && WellFormed(store.runs) && WritableRound(fetches)
      modifies this, store
      ensures Valid() && WellFormed(store.runs) && m.Some?
      ensures |results| == |sources|
      ensures compiled <==> (exists i :: 0 <= i < |results| && results[i] == Updated) || removed > 0 || old(m).None?
      ensures InSync() <==> compiled || old(InSync())
      ensures !compiled ==> m == old(m) && entries == old(entries) && store.runs == old(store.runs)
      ensures saved <==> compiled && !radix && disk.saves
      ensures if saved then Indexed() else store.index == old(store.index)
      ensures complete <==> AllNamed(sources, store.runs)
      ensures OnlyStuckLeft(sources, store.runs, disk.stuck)
      ensures DistinctNames(sources) ==> AllAnswer(sources, fetches, old(store.runs), results)
      ensures DistinctNames(sources) && NothingNew(sources, fetches, old(store.runs)) && old(m).Some? ==> !compiled
      ensures DistinctNames(sources) ==> AllSettled(sources, fetches, results, store.runs)
      ensures DistinctNames(sources) && complete && Stale !in results ==> WrittenBy(sources, store.runs)
    {
      hide Opened, IsMergeMap, WellFormed, StorableMap, Represents, Encodes, WritableFetch, DistinctNames, WrittenBy,
           AllAnswer, NothingNew, AllNamed, OnlyStuckLeft;
      var anyUpdated;
      anyUpdated, results, removed, complete := UpdateRuns(fetches, disk.stuck);
      compiled := anyUpdated || removed > 0 || m.None?;
      saved := false;
      if compiled {
        saved := Serve(disk.saves);
      }
    }

    /** Brings the runs up to date and drops those of no source. */
    method UpdateRuns(fetches: seq<Fetch>, stuck: set<Key>)
      returns (anyUpdated: bool, ghost results: seq<RefreshResult>, removed: nat, ghost complete: bool)
      requires WellFormed(store.runs) && WritableRound(fetches)
      modifies store`runs
      ensures WellFormed(store.runs) && |results| == |sources|
      ensures anyUpdated <==> exists i :: 0 <= i < |results| && results[i] == Updated
      ensures !anyUpdated && removed == 0 ==> store.runs == old(store.runs)
      ensures complete <==> AllNamed(sources, store.runs)
      ensures OnlyStuckLeft(sources, store.runs, stuck)
      ensures DistinctNames(sources) ==> AllAnswer(sources, fetches, old(store.runs), results)
      ensures DistinctNames(sources) && NothingNew(sources, fetches, old(store.runs)) ==> !anyUpdated && removed == 0
      ensures DistinctNames(sources) ==> AllSettled(sources, fetches, results, store.runs)
      ensures DistinctNames(sources) && complete && Stale !in results ==> WrittenBy(sources, store.runs)
    {
      hide Opened, WellFormed, WritableFetch, DistinctNames, Settled, WrittenBy, AllAnswer, AllSettled, NothingNew, AllNamed;
      anyUpdated, results := RefreshAll(fetches);
      ghost var refreshed := store.runs;
      ghost var names := set s | s in sources :: s.name;
      removed, complete := store.Retain(set s | s in sources :: s.name, stuck);
      NamesCover(sources, names, store.runs);
      StuckCover(sources, names, store.runs, stuck);
      RetainedUnchanged(refreshed, store.runs, removed);
      RetainedWellFormed(refreshed, store.runs);
      if DistinctNames(sources) {
        if NothingNew(sources, fetches, old(store.runs)) {
          NothingUpdated(sources, fetches, old(store.runs), results);
          NamesCover(sources, names, refreshed);
          NoneDropped(refreshed, store.runs, names);
        }
        AllStaySettled(sources, fetches, results, refreshed, store.runs, names);
        if complete && Stale !in results {
          SettledIsWritten(sources, fetches, results, refreshed, store.runs);
        }
      }
    }

    /** Compiles, serves the result and saves an FST. */
    method Serve(saves: bool) returns (saved: bool)
      requires WellFormed(store.runs)
      modifies this, store`index
      ensures Valid() && InSync()
      ensures saved <==> !radix && saves
      ensures if saved then Indexed() else store.index == old(store.index)
    {
      hide Opened, IsMergeMap, WellFormed, StorableMap, Represents, Encodes, IndexOf;
      var box, n, e := Compile();
      saved := InstallCompiled(box, e, saves);
    }

    method InstallCompiled(box: Box, ghost e: map<Key, Entry>, saves: bool) returns (saved: bool)
      requires WellFormed(store.runs) && IsMergeMap(Opened(sources, store.runs), e)
      requires box.ViaRadix? ==> box.rx.Valid() && box.rx.entries == e
      requires box.ViaRadix? ==> {this, store} !! {box.rx, box.rx.root} + box.rx.root.Repr
      requires box.ViaFst? ==> box.fst.Valid() && box.fst.entries == e
      modifies this, store`index
      ensures Valid() && InSync() && entries == e
      ensures saved <==> box.ViaFst? && saves
      ensures if saved then Indexed() else store.index == old(store.index)
    {
      hide Opened, IsMergeMap, StorableMap, Represents, Encodes, WellFormed, IndexOf;
      if box.ViaFst? {
        ServedIsIndex(sources, store.runs, box.fst.fst, e);
      }
      saved := Install(box, e, saves);
    }

    method Install(box: Box, ghost e: map<Key, Entry>, saves: bool) returns (saved: bool)
      requires IsMergeMap(Opened(sources, store.runs), e)
      requires box.ViaRadix? ==> box.rx.Valid() && box.rx.entries == e
      requires box.ViaRadix? ==> {this, store} !! {box.rx, box.rx.root} + box.rx.root.Repr
      requires box.ViaFst? ==> box.fst.Valid() && box.fst.entries == e
      modifies this, store`index
      ensures Valid() && InSync() && entries == e
      ensures saved <==> box.ViaFst? && saves
      ensures store.index == if saved then Some(box.fst.fst) else old(store.index)
    {
      hide Opened, IsMergeMap, StorableMap, Represents, Encodes;
      m := Some(box);
      entries := e;
      saved := false;
      if box.ViaFst? {
        saved := store.SaveIndex(box.fst.fst, saves);
      }
    }

    method RefreshAll(fetches: seq<Fetch>) returns (anyUpdated: bool, ghost results: seq<RefreshResult>)
      requires WellFormed(store.runs) && WritableRound(fetches)
      modifies store`runs
      ensures WellFormed(store.runs) && |results| == |sources|
      ensures anyUpdated <==> exists i :: 0 <= i < |results| && results[i] == Updated
      ensures !anyUpdated ==> store.runs == old(store.runs)
      ensures DistinctNames(sources) ==> forall i :: 0 <= i < |results| ==> Settled(sources[i], fetches[i], results[i], store.runs)
      ensures DistinctNames(sources) ==> AllAnswer(sources, fetches, old(store.runs), results)
    {
      hide Opened, WellFormed, WritableFetch, Settled, Answers, OthersKept, SameRun, RecordsOf, S.IsCompaction, F.RunBytes, IsCurrent, StoredFrom;
      results := [];
      anyUpdated := false;
      SameRunSelf(sources, store.runs);
      for i := 0 to |sources|
        invariant |results| == i && WellFormed(store.runs)
        invariant anyUpdated <==> exists j :: 0 <= j < i && results[j] == Updated
        invariant !anyUpdated ==> store.runs == old(store.runs)
        invariant DistinctNames(sources) ==> forall j :: 0 <= j < i ==> Settled(sources[j], fetches[j], results[j], store.runs)
        invariant DistinctNames(sources) ==> forall j :: 0 <= j < i ==> Answers(sources[j], fetches[j], old(store.runs), results[j])
        invariant DistinctNames(sources) ==> forall j :: i <= j < |sources| ==> SameRun(sources[j].name, old(store.runs), store.runs)
      {
        ghost var runs, before := store.runs, results;
        var r := Refresh(sources[i], store, fetches[i]);
        results := results + [r];
        assert results[i] == r && forall j :: 0 <= j < i ==> results[j] == before[j];
        if r == Updated {
          anyUpdated := true;
        }
        if DistinctNames(sources) {
          forall j | 0 <= j < i
            ensures Settled(sources[j], fetches[j], results[j], store.runs)
          {
            StaysSettled(sources[j], fetches[j], results[j], sources[i].name, runs, store.runs);
          }
          SameRunAnswers(sources[i], fetches[i], old(store.runs), runs, r);
          forall j | i < j < |sources|
            ensures SameRun(sources[j].name, old(store.runs), store.runs)
          {
            StaysSame(sources[j].name, sources[i].name, old(store.runs), runs, store.runs);
          }
        }
      }
    }

    /** Before the first rebuild: the saved index if there is one, else a compilation. */
    method LoadCached(saved: Option<FstMatcher>, saves: bool) returns (n: nat)
      requires Valid() && WellFormed(store.runs)
      requires saved.Some? ==> saved.value.Valid() && store.index == Some(saved.value.fst)
      requires saved.None? <==> store.index.None?
      modifies this, store
      ensures Valid() && store.runs == old(store.runs)
      ensures !radix && saved.Some? ==> m == Some(ViaFst(saved.value)) && entries == saved.value.entries
      ensures !radix && saved.Some? ==> n > 0
      ensures radix || saved.None? ==>
                if n > 0 then InSync() && n == |entries| else m == old(m) && entries == old(entries)
      ensures store.index == old(store.index) || (Indexed() && !radix && saved.None?)
    {
      hide Opened, IsMergeMap, WellFormed, StorableMap, Represents, Encodes, IndexOf;
      if !radix && saved.Some? {
        m := Some(ViaFst(saved.value));
        entries := saved.value.entries;
        // the length of the saved bytes, which a loadable index has some of
        var size: nat :| size > 0;
        return size;
      }
      n := ServeCompiled(saves);
    }

    /** Compiles and serves the result unless it is empty. */
    method ServeCompiled(saves: bool) returns (n: nat)
      requires WellFormed(store.runs)
      modifies this, store`index
      ensures if n > 0 then Valid() && InSync() && n == |entries| else m == old(m) && entries == old(entries)
      ensures store.index == old(store.index) || (Indexed() && !radix)
    {
      hide Opened, IsMergeMap, WellFormed, StorableMap, Represents, Encodes, IndexOf;
      var box, k, e := Compile();
      if k == 0 {
        return 0;
      }
      var _ := InstallCompiled(box, e, saves);
      return k;
    }

    /** Start-up: serve the saved index, whatever state it was left in, then rebuild once. If
        there is one, the served matcher is in sync afterwards exactly when the router compiled
        or the index was that of the present configuration and the runs before. When every
        source calls its run current, an index that was behind stays served. An index that was
        right under the configuration `was` is right again if no source was left stale and no
        orphan remained. */
    method Restart(saved: Option<FstMatcher>, fetches: seq<Fetch>, disk: Disk, ghost was: seq<Source>)
      returns (compiled: bool, ghost results: seq<RefreshResult>, ghost complete: bool)
      requires Valid() && WellFormed(store.runs) && WritableRound(fetches) && m.None?
      requires saved.Some? ==> saved.value.Valid() && store.index == Some(saved.value.fst)
      requires saved.None? <==> store.index.None?
      modifies this, store
      ensures Valid() && WellFormed(store.runs) && m.Some? && |results| == |sources|
      ensures radix || saved.None? ==> InSync()
      ensures !radix && saved.Some? ==> (InSync() <==> compiled || old(Indexed()))
      ensures complete <==> AllNamed(sources, store.runs)
      ensures !radix && saved.Some? && DistinctNames(sources) && NothingNew(sources, fetches, old(store.runs)) ==>
                !compiled && (InSync() <==> old(Indexed()))
      ensures (&& old(IndexOf(was, store.runs, store.index) && WrittenBy(was, store.runs))
               && DistinctNames(was) && DistinctNames(sources) && HonestFingerprints(was, sources)
               && complete && Stale !in results) ==> InSync()
    {
      hide Opened, IsMergeMap, MergeMap, WellFormed, StorableMap, Represents, Encodes, WritableFetch,
           DistinctNames, HonestFingerprints, WrittenBy, AllAnswer, AllSettled, NothingNew, AllNamed;
      if saved.Some? {
        ServedIsIndex(sources, store.runs, saved.value.fst, saved.value.entries);
      }
      var n := LoadCached(saved, disk.saves);
      var stored, removed;
      compiled, stored, results, removed, complete := Rebuild(fetches, disk);
      if DistinctNames(was) && DistinctNames(sources) && HonestFingerprints(was, sources)
         && WrittenBy(was, store.runs) && WrittenBy(sources, store.runs) {
        SameFingerprintsSameRuns(was, sources, store.runs);
      }
    }

    /** A rebuild that follows one which updated every source skips compiling when every source
        calls what it was shown then current: the validators written are the ones asked about. */
    method RebuildTwice(first: seq<Fetch>, second: seq<Fetch>, disk: Disk, disk': Disk)
      returns (again: bool, ghost results: seq<RefreshResult>, ghost complete: bool)
      requires Valid() && WellFormed(store.runs) && WritableRound(first) && WritableRound(second)
      requires DistinctNames(sources) && forall i :: 0 <= i < |sources| ==> sources[i].fingerprint != []
      modifies this, store
      ensures Valid() && WellFormed(store.runs) && |results| == |sources|
      ensures (&& complete && (forall i :: 0 <= i < |sources| ==> results[i] == Updated)
               && (forall i :: 0 <= i < |sources| && first[i].got.Some? ==>
                     second[i].current(first[i].got.value.v.(fingerprint := sources[i].fingerprint))))
              ==> !again && (sources != [] ==> InSync())
    {
      hide Opened, IsMergeMap, WellFormed, StorableMap, Represents, Encodes, Writable, DistinctNames, WrittenBy,
           AllAnswer, AllSettled, NothingNew, AllNamed, IndexOf;
      var compiled, saved, removed;
      compiled, saved, results, removed, complete := Rebuild(first, disk);
      if complete && (forall i :: 0 <= i < |sources| ==> results[i] == Updated) {
        UpdatedIsCurrent(sources, first, second, results, store.runs);
        assert sources != [] ==> results[0] == Updated;
      }
      var compiled', saved', results', removed', complete' := Rebuild(second, disk');
      again := compiled';
    }

    /** The rebuild loop: in sync at the end exactly when some round compiled or the router
        was in sync before, however many rounds skip compiling. `saved` tells of the last round
        that compiled: if it saved its index, the index is that of the runs as they are left. */
    method RebuildAll(rounds: seq<Round>) returns (compiled: bool, saved: bool)
      requires Valid() && WellFormed(store.runs)
      requires forall k :: 0 <= k < |rounds| ==> WritableRound(rounds[k].fetches)
      modifies this, store
      ensures Valid() && WellFormed(store.runs)
      ensures InSync() <==> compiled || old(InSync())
      ensures old(m).None? && rounds != [] ==> compiled
      ensures saved ==> compiled && Indexed()
      ensures !compiled ==> store.runs == old(store.runs) && store.index == old(store.index)
    {
      hide Opened, IsMergeMap, WellFormed, StorableMap, Represents, Encodes, Writable, MergeMap;
      compiled, saved := false, false;
      for k := 0 to |rounds|
        invariant Valid() && WellFormed(store.runs)
        invariant InSync() <==> compiled || old(InSync())
        invariant k == 0 ==> m == old(m)
        invariant old(m).None? && k > 0 ==> compiled
        invariant saved ==> compiled && Indexed()
        invariant !compiled ==> store.runs == old(store.runs) && store.index == old(store.index)
      {
        assert WritableRound(rounds[k].fetches);
        var now, stored, results, removed, complete := Rebuild(rounds[k].fetches, rounds[k].disk);
        if now {
          compiled, saved := true, stored;
        }
      }
    }

    method LookupAction(domain: Key) returns (a: Action)
      requires Valid()
      ensures m.None? ==> a == Pass
      ensures m.Some? ==> a == Answer(entries, Labels.Reverse(domain))
      ensures InSync() ==> forall e :: IsMergeMap(Opened(sources, store.runs), e) && WellFormed(store.runs) ==>
                             a == Answer(e, Labels.Reverse(domain))
    {
      hide Opened, IsMergeMap, StorableMap, Represents, Encodes, Answer;
      match m {
        case None => a := Pass;
        case Some(ViaRadix(rx)) => a := rx.Lookup(domain);
        case Some(ViaFst(fst)) => a := fst.Lookup(domain);
      }
      if WellFormed(store.runs) {
        OpenedIsSorted(sources, store.runs);
        forall e | IsMergeMap(Opened(sources, store.runs), e) && InSync()
          ensures a == Answer(e, Labels.Reverse(domain))
        {
          MergeMapUnique(Opened(sources, store.runs), e, entries);
        }
      }
    }
  }

  lemma {:induction false} RetainedUnchanged(a: map<Key, Key>, b: map<Key, Key>, gone: int)
    requires b.Keys <= a.Keys && (forall n :: n in b ==> b[n] == a[n]) && gone == |a| - |b|
    ensures gone == 0 ==> a == b
  {
    if gone == 0 {
      SubsetSameSize(b.Keys, a.Keys);
    }
  }

  lemma {:induction false} NothingUpdated(sources: seq<Source>, fetches: seq<Fetch>, runs: map<Key, Key>, results: seq<RefreshResult>)
    requires AllAnswer(sources, fetches, runs, results) && NothingNew(sources, fetches, runs)
    ensures forall i :: 0 <= i < |results| ==> results[i] == Unchanged
    ensures AllNamed(sources, runs)
  {
    hide IsCurrent, AllNamed;
  }

  lemma {:induction false} NamesCover(sources: seq<Source>, names: set<Key>, runs: map<Key, Key>)
    requires names == set s | s in sources :: s.name
    ensures runs.Keys <= names <==> AllNamed(sources, runs)
  {
    forall name
      ensures name in names <==> exists i :: 0 <= i < |sources| && sources[i].name == name
    {
      if i :| 0 <= i < |sources| && sources[i].name == name {
        assert sources[i] in sources;
      }
    }
  }

  lemma {:induction false} StuckCover(sources: seq<Source>, names: set<Key>, runs: map<Key, Key>, stuck: set<Key>)
    requires names == (set s | s in sources :: s.name) && runs.Keys <= names + stuck
    ensures OnlyStuckLeft(sources, runs, stuck)
  {
  }

  lemma {:induction false} NoneDropped(a: map<Key, Key>, b: map<Key, Key>, names: set<Key>)
    requires b.Keys <= a.Keys <= names && forall n :: n in names && n in a ==> n in b
    ensures |a| == |b|
  {
    assert a.Keys == b.Keys;
    assert |a| == |a.Keys| && |b| == |b.Keys|;
  }

  lemma {:induction false} SubsetSameSize(x: set<Key>, y: set<Key>)
    requires x <= y && |x| == |y|
    ensures x == y
    decreases x
  {
    if x != {} {
      var e :| e in x;
      SubsetSameSize(x - {e}, y - {e});
    }
  }

  lemma {:induction false} RetainedWellFormed(a: map<Key, Key>, b: map<Key, Key>)
    requires WellFormed(a) && b.Keys <= a.Keys && forall n :: n in b ==> b[n] == a[n]
    ensures WellFormed(b)
  {
  }

  ghost predicate SameRun(name: Key, runs: map<Key, Key>, runs': map<Key, Key>) {
    (name in runs <==> name in runs') && (name in runs ==> runs[name] == runs'[name])
  }

  lemma {:induction false} SameRunSelf(sources: seq<Source>, runs: map<Key, Key>)
    ensures forall j :: 0 <= j < |sources| ==> SameRun(sources[j].name, runs, runs)
  {
  }

  lemma {:induction false} StaysSame(name: Key, other: Key, a: map<Key, Key>, b: map<Key, Key>, c: map<Key, Key>)
    requires SameRun(name, a, b) && OthersKept(other, b, c) && name != other
    ensures SameRun(name, a, c)
  {
    assert SameRun(name, b, c);
  }

  /** What a source answers depends on its own run only. */
  lemma {:induction false} SameRunAnswers(s: Source, fetch: Fetch, a: map<Key, Key>, b: map<Key, Key>, r: RefreshResult)
    requires SameRun(s.name, a, b) && Answers(s, fetch, b, r)
    ensures Answers(s, fetch, a, r)
  {
    hide F.ParseHeader;
  }

  lemma {:induction false} StaysSettled(s: Source, fetch: Fetch, r: RefreshResult, name: Key, runs: map<Key, Key>, runs': map<Key, Key>)
    requires Settled(s, fetch, r, runs) && OthersKept(name, runs, runs') && s.name != name
    ensures Settled(s, fetch, r, runs')
  {
    assert SameRun(s.name, runs, runs');
  }

  /** Refreshed without a stale source and rid of orphans, the store holds runs of the present
      configuration only. */
  /** Removing the runs of others leaves what a refresh said. */
  lemma {:induction false} AllStaySettled(sources: seq<Source>, fetches: seq<Fetch>, results: seq<RefreshResult>,
                        runs: map<Key, Key>, runs': map<Key, Key>, names: set<Key>)
    requires |results| == |fetches| == |sources| && names == set s | s in sources :: s.name
    requires forall i :: 0 <= i < |sources| ==> Settled(sources[i], fetches[i], results[i], runs)
    requires runs'.Keys <= runs.Keys && (forall n :: n in runs' ==> runs'[n] == runs[n])
    requires forall n :: n in names && n in runs ==> n in runs'
    ensures AllSettled(sources, fetches, results, runs')
  {
    forall i | 0 <= i < |sources|
      ensures Settled(sources[i], fetches[i], results[i], runs')
    {
      assert sources[i] in sources && sources[i].name in names;
      hide F.ParseHeader, F.RunBytes;
    }
  }

  lemma {:induction false} UpdatedIsCurrent(sources: seq<Source>, first: seq<Fetch>, second: seq<Fetch>, results: seq<RefreshResult>,
                          runs: map<Key, Key>)
    requires |second| == |sources| && AllSettled(sources, first, results, runs) && AllNamed(sources, runs)
    requires forall i :: 0 <= i < |sources| ==> WritableFetch(sources[i], first[i])
    requires forall i :: 0 <= i < |sources| ==> results[i] == Updated && sources[i].fingerprint != []
    ensures (forall i :: 0 <= i < |sources| && first[i].got.Some? ==>
               second[i].current(first[i].got.value.v.(fingerprint := sources[i].fingerprint)))
            ==> NothingNew(sources, second, runs)
  {
    hide F.ParseHeader, F.RunBytes, Writable, AllNamed, StoredFrom;
    forall i | 0 <= i < |sources|
      ensures first[i].got.Some?
      ensures second[i].current(first[i].got.value.v.(fingerprint := sources[i].fingerprint)) ==> IsCurrent(sources[i], second[i], runs)
    {
      assert Settled(sources[i], first[i], results[i], runs);
      StoredHeader(sources[i], first[i].got.value, runs);
    }
  }

  ghost predicate AllSettled(sources: seq<Source>, fetches: seq<Fetch>, results: seq<RefreshResult>, runs: map<Key, Key>) {
    && |results| == |fetches| == |sources|
    && forall i :: 0 <= i < |sources| ==> Settled(sources[i], fetches[i], results[i], runs)
  }

  lemma {:induction false} SettledIsWritten(sources: seq<Source>, fetches: seq<Fetch>, results: seq<RefreshResult>, runs: map<Key, Key>, runs': map<Key, Key>)
    requires |results| == |fetches| == |sources| && WellFormed(runs') && Stale !in results
    requires forall i :: 0 <= i < |sources| ==> Settled(sources[i], fetches[i], results[i], runs)
    requires forall n :: n in runs' ==> n in runs && runs'[n] == runs[n]
    requires AllNamed(sources, runs')
    ensures WrittenBy(sources, runs')
  {
    forall n | n in runs'
      ensures exists i :: WrittenAt(sources, i, n, runs'[n])
    {
      HasHeader(runs', n);
      hide F.ParseHeader, WellFormed, Settled, WrittenAt;
      var i: nat :| i < |sources| && sources[i].name == n;
      assert results[i] in results;
      SettledIsCarried(sources, i, fetches[i], results[i], runs);
    }
  }

  lemma {:induction false} SettledIsCarried(sources: seq<Source>, i: nat, fetch: Fetch, r: RefreshResult, runs: map<Key, Key>)
    requires i < |sources| && Settled(sources[i], fetch, r, runs) && r != Stale
    requires sources[i].name in runs && F.ParseHeader(runs[sources[i].name]).Header?
    ensures WrittenAt(sources, i, sources[i].name, runs[sources[i].name])
  {
    hide F.ParseHeader;
  }

  lemma {:induction false} HasHeader(runs: map<Key, Key>, name: Key)
    requires WellFormed(runs) && name in runs
    ensures F.ParseHeader(runs[name]).Header?
  {
    hide F.ParseHeader, IsRun;
    var v, kept :| IsRun(runs[name], v, kept);
    RunHeader(runs[name], v, kept);
  }

  // ---------------------------------------------------------------- warm start

  ghost predicate DistinctNames(sources: seq<Source>) {
    forall i, j :: 0 <= i < j < |sources| ==> sources[i].name != sources[j].name
  }

  /** Every stored run belongs to a configured source and carries its fingerprint. */
  ghost predicate WrittenBy(sources: seq<Source>, runs: map<Key, Key>) {
    forall name :: name in runs ==> exists i :: WrittenAt(sources, i, name, runs[name])
  }

  ghost predicate WrittenAt(sources: seq<Source>, i: nat, name: Key, file: Key) {
    && i < |sources| && sources[i].name == name
    && F.ParseHeader(file).Header? && F.ParseHeader(file).v.fingerprint == sources[i].fingerprint
  }

  /** A fingerprint covers the source's position, action and prune flag. */
  ghost predicate HonestFingerprints(a: seq<Source>, b: seq<Source>) {
    forall i, j :: 0 <= i < |a| && 0 <= j < |b| && a[i].fingerprint == b[j].fingerprint ==>
      i == j && a[i].action == b[j].action && a[i].prune == b[j].prune
  }

  /** Restarting under another configuration: if no orphan is left and every run carries its
      source's present fingerprint, the old and the new configuration compile to the same. */
  lemma {:induction false} SameFingerprintsSameRuns(a: seq<Source>, b: seq<Source>, runs: map<Key, Key>)
    requires DistinctNames(a) && DistinctNames(b) && HonestFingerprints(a, b)
    requires WrittenBy(a, runs) && WrittenBy(b, runs)
    ensures Opened(a, runs) == Opened(b, runs)
  {
    var n := if |a| < |b| then |a| else |b|;
    SamePrefix(a, b, runs, n);
    forall k | n <= k < |a|
      ensures OpenedOne(a[k], runs) == []
    {
      SameAt(a, b, runs, k);
    }
    forall k | n <= k < |b|
      ensures OpenedOne(b[k], runs) == []
    {
      SameAt(a, b, runs, k);
    }
    hide DistinctNames, HonestFingerprints, WrittenBy;
    EmptyTail(a, runs, n);
    EmptyTail(b, runs, n);
  }

  /** A stored run sits at the same position of both configurations. */
  lemma {:induction false} SameAt(a: seq<Source>, b: seq<Source>, runs: map<Key, Key>, k: nat)
    requires DistinctNames(a) && DistinctNames(b) && HonestFingerprints(a, b)
    requires WrittenBy(a, runs) && WrittenBy(b, runs)
    ensures k < |a| && a[k].name in runs ==>
              k < |b| && b[k].name == a[k].name && b[k].action == a[k].action && b[k].prune == a[k].prune
    ensures k < |b| && b[k].name in runs ==> k < |a| && a[k].name == b[k].name
  {
    if k < |a| && a[k].name in runs {
      var name := a[k].name;
      var i :| WrittenAt(a, i, name, runs[name]);
      var j :| WrittenAt(b, j, name, runs[name]);
      assert i == k;
    }
    if k < |b| && b[k].name in runs {
      var name := b[k].name;
      var i :| WrittenAt(a, i, name, runs[name]);
      var j :| WrittenAt(b, j, name, runs[name]);
      assert j == k;
    }
  }

  lemma {:induction false} SamePrefix(a: seq<Source>, b: seq<Source>, runs: map<Key, Key>, n: nat)
    requires DistinctNames(a) && DistinctNames(b) && HonestFingerprints(a, b)
    requires WrittenBy(a, runs) && WrittenBy(b, runs)
    requires n <= |a| && n <= |b|
    ensures Opened(a[..n], runs) == Opened(b[..n], runs)
    decreases n
  {
    if n > 0 {
      SamePrefix(a, b, runs, n - 1);
      SameAt(a, b, runs, n - 1);
      assert a[..n][..n - 1] == a[..n - 1] && b[..n][..n - 1] == b[..n - 1];
    }
  }

  lemma {:induction false} EmptyTail(a: seq<Source>, runs: map<Key, Key>, n: nat)
    requires n <= |a| && forall k :: n <= k < |a| ==> OpenedOne(a[k], runs) == []
    ensures Opened(a, runs) == Opened(a[..n], runs)
    decreases |a|
  {
    if n < |a| {
      var m := |a| - 1;
      EmptyTail(a[..m], runs, n);
      assert a[..m][..n] == a[..n];
      assert OpenedOne(a[m], runs) == [];
    } else {
      assert a[..n] == a;
    }
  }

  /** The index is that of a compilation from these sources and runs. */
  ghost predicate IndexOf(sources: seq<Source>, runs: map<Key, Key>, index: Option<map<Key, nat>>) {
    index.Some? && Encodes(index.value, MergeMap(Opened(sources, runs)))
  }

  lemma {:induction false} IsTheMergeMap(sources: seq<Source>, runs: map<Key, Key>, e: map<Key, Entry>)
    requires WellFormed(runs)
    ensures IsMergeMap(Opened(sources, runs), e) <==> e == MergeMap(Opened(sources, runs))
    ensures StorableMap(MergeMap(Opened(sources, runs)))
  {
    hide Opened, IsMergeMap, MergeMap, WellFormed, StorableRuns, StorableMap;
    var srcs := Opened(sources, runs);
    OpenedIsSorted(sources, runs);
    MergeMapHolds(srcs);
    MergeMapStorable(srcs, MergeMap(srcs));
    if IsMergeMap(srcs, e) {
      MergeMapUnique(srcs, e, MergeMap(srcs));
    }
  }

  /** A loaded index answers from the merge map exactly when it is that map's index. */
  lemma {:induction false} ServedIsIndex(sources: seq<Source>, runs: map<Key, Key>, fst: map<Key, nat>, e: map<Key, Entry>)
    requires WellFormed(runs) && Encodes(fst, e) && StorableMap(e)
    ensures IsMergeMap(Opened(sources, runs), e) <==> IndexOf(sources, runs, Some(fst))
  {
    IsTheMergeMap(sources, runs, e);
    hide Opened, IsMergeMap, MergeMap, WellFormed, StorableMap, Encodes;
    if IndexOf(sources, runs, Some(fst)) {
      EncodesUnique(fst, e, MergeMap(Opened(sources, runs)));
    }
  }

  /** An index made from one configuration and its runs is right for another, or for later
      runs, exactly when both merge to the same map. */
  lemma {:induction false} IndexRightExactly(a: seq<Source>, runs: map<Key, Key>, b: seq<Source>, runs': map<Key, Key>,
                           index: Option<map<Key, nat>>)
    requires WellFormed(runs) && WellFormed(runs') && IndexOf(a, runs, index)
    ensures IndexOf(b, runs', index) <==> MergeMap(Opened(a, runs)) == MergeMap(Opened(b, runs'))
  {
    IsTheMergeMap(a, runs, MergeMap(Opened(a, runs)));
    IsTheMergeMap(b, runs', MergeMap(Opened(b, runs')));
    hide Opened, IsMergeMap, MergeMap, WellFormed, StorableMap, Encodes;
    if IndexOf(b, runs', index) {
      EncodesUnique(index.value, MergeMap(Opened(a, runs)), MergeMap(Opened(b, runs')));
    }
  }

  /** The other case: the configuration is the same and nothing is stale, but the last run
      was written without an index after it, because saving failed, the process died first or
      it served a radix tree. An index of the run before lacks a key of the later one. */
  lemma {:induction false} IndexBehindRuns(s: Source, v: F.Validator, kept: seq<F.Record>, v': F.Validator, kept': seq<F.Record>,
                         i: nat, index: Option<map<Key, nat>>)
    requires IsRun(F.RunBytes(v, kept), v, kept) && IsRun(F.RunBytes(v', kept'), v', kept')
    requires v.fingerprint == v'.fingerprint == s.fingerprint
    requires i < |kept'| && forall r :: r in kept ==> r.key != kept'[i].key
    requires IndexOf([s], map[s.name := F.RunBytes(v, kept)], index)
    ensures WrittenBy([s], map[s.name := F.RunBytes(v, kept)])
    ensures var runs' := map[s.name := F.RunBytes(v', kept')];
            WrittenBy([s], runs') && !IndexOf([s], runs', index)
  {
    hide Opened, MergeMap, F.RunBytes, F.ParseHeader, F.Payload, WellFormed, WrittenBy, IsRun, IndexOf;
    var runs, runs' := map[s.name := F.RunBytes(v, kept)], map[s.name := F.RunBytes(v', kept')];
    SingleWritten(s, v, kept);
    SingleWritten(s, v', kept');
    OpenedSingle(s, runs, v, kept);
    OpenedSingle(s, runs', v', kept');
    IndexRightExactly([s], runs, [s], runs', index);
    KeyTellsApart(kept, kept', i, s);
  }

  /** A key of one run alone tells the merge maps apart. */
  lemma {:induction false} KeyTellsApart(kept: seq<F.Record>, kept': seq<F.Record>, i: nat, s: Source)
    requires i < |kept'| && forall r :: r in kept ==> r.key != kept'[i].key
    ensures MergeMap([Merge.RunSource(RunRecords(kept), s.action, s.prune)])
         != MergeMap([Merge.RunSource(RunRecords(kept'), s.action, s.prune)])
  {
    hide MergeMap;
    var a, b := Merge.RunSource(RunRecords(kept), s.action, s.prune), Merge.RunSource(RunRecords(kept'), s.action, s.prune);
    SingleSource(b, i);
    SingleKeys(a, kept'[i].key);
    assert forall r :: 0 <= r < |kept| ==> kept[r] in kept;
  }

  lemma {:induction false} SingleWritten(s: Source, v: F.Validator, kept: seq<F.Record>)
    requires IsRun(F.RunBytes(v, kept), v, kept) && v.fingerprint == s.fingerprint
    ensures WrittenBy([s], map[s.name := F.RunBytes(v, kept)]) && WellFormed(map[s.name := F.RunBytes(v, kept)])
  {
    hide F.RunBytes, F.ParseHeader, R.ReadAll, R.ReadEnd, F.Payload;
    R.RunRoundTrip(v, kept);
    assert WrittenAt([s], 0, s.name, F.RunBytes(v, kept));
  }

  lemma {:induction false} SingleKeys(src: Merge.RunSource, k: Key)
    ensures k in MergeMap([src]) ==> exists r :: 0 <= r < |src.recs| && src.recs[r].key == k
  {
    MergeMapHolds([src]);
    if k in MergeMap([src]) {
      assert Merge.Survives([src], k);
      assert Merge.HasKey([src][Merge.Winner([src], k)].recs, k);
    }
  }

  /** The case the condition excludes: the source's action was changed and its fetch failed
      after the restart, so that its run is still the old configuration's. The index left
      served answers by the old action. */
  lemma {:induction false} StaleActionServed(s: Source, action: Action, fingerprint: Key, v: F.Validator, kept: seq<F.Record>)
    requires IsRun(F.RunBytes(v, kept), v, kept) && kept != [] && action != s.action
    ensures var runs := map[s.name := F.RunBytes(v, kept)];
            MergeMap(Opened([s], runs)) != MergeMap(Opened([s.(action := action, fingerprint := fingerprint)], runs))
  {
    var runs := map[s.name := F.RunBytes(v, kept)];
    var t := s.(action := action, fingerprint := fingerprint);
    OpenedSingle(s, runs, v, kept);
    OpenedSingle(t, runs, v, kept);
    hide Opened, MergeMap, F.RunBytes, F.Payload;
    SingleSource(Opened([s], runs)[0], 0);
    SingleSource(Opened([t], runs)[0], 0);
  }

  lemma {:induction false} OpenedSingle(s: Source, runs: map<Key, Key>, v: F.Validator, kept: seq<F.Record>)
    requires s.name in runs && IsRun(runs[s.name], v, kept)
    ensures Opened([s], runs) == [Merge.RunSource(RunRecords(kept), s.action, s.prune)]
  {
    hide F.RunBytes, F.ParseHeader, R.ReadAll, R.ReadEnd, F.Payload;
    R.RunRoundTrip(v, kept);
    assert [s][..0] == [];
  }

  /** A source alone gives its action to each of its keys. */
  lemma {:induction false} SingleSource(src: Merge.RunSource, i: nat)
    requires i < |src.recs|
    ensures src.recs[i].key in MergeMap([src]) && MergeMap([src])[src.recs[i].key].action == src.action
  {
    var k := src.recs[i].key;
    assert Merge.HasKey([src][0].recs, k);
    Merge.WinnerUnique([src], k, 0);
    MergeMapHolds([src]);
  }

  // ---------------------------------------------------------------- end to end

  /** From the stored run to the answer: if the last source prunes and its run lists p with
      subdomains, p and every domain below it get that source's action, whatever the other
      runs contain. */
  lemma {:induction false} StoredOverrideServed(sources: seq<Source>, runs: map<Key, Key>, m: map<Key, Entry>,
                             v: F.Validator, kept: seq<F.Record>, p: Key, d: Key)
    requires WellFormed(runs) && IsMergeMap(Opened(sources, runs), m)
    requires sources != [] && sources[|sources| - 1].prune && sources[|sources| - 1].name in runs
    requires IsRun(runs[sources[|sources| - 1].name], v, kept)
    requires F.Record(Labels.Reverse(p), 2) in kept
    requires Labels.Clean(p) && Labels.Clean(d) && p != [] && d != [] && (d == p || D.IsSubdomain(d, p))
    ensures Answer(m, Labels.Reverse(d)) == sources[|sources| - 1].action
  {
    hide Labels.Reverse, Answer, F.RunBytes, F.ParseHeader, R.ReadAll, R.ReadEnd, F.Payload, Labels.Clean;
    var s := sources[|sources| - 1];
    R.RunRoundTrip(v, kept);
    OpenedIsSorted(sources, runs);
    var srcs := Opened(sources, runs);
    assert OpenedOne(s, runs) == [Merge.RunSource(RunRecords(kept), s.action, s.prune)];
    var i :| 0 <= i < |kept| && kept[i] == F.Record(Labels.Reverse(p), 2);
    assert RunRecords(kept)[i] == Merge.Record(Labels.Reverse(p), MatchPrefix);
    assert srcs[|srcs| - 1] == Merge.RunSource(RunRecords(kept), s.action, s.prune);
    D.OverrideHoldsBelow(srcs, m, p, d);
  }
}
