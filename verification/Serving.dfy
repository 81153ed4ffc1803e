// From downloaded lists to answers: which sources a compilation opens, which of them decides a
// key, and what becomes of an entry's domain and its subdomains.
module Serving {
  import opened Bytes
  import opened Actions
  import opened Lookup
  import opened Matcher
  import opened Router
  import Merge
  import Labels
  import D = DomainLookup
  import F = Format
  import S = Store
  import R = Reader

  // ---------------------------------------------------------------- the opened sources

  /** How many of the sources have a readable run. */
  function Rank(sources: seq<Source>, runs: map<Key, Key>): nat {
    if sources == [] then 0
    else Rank(sources[..|sources| - 1], runs) + if Cached(sources[|sources| - 1], runs) then 1 else 0
  }

  /** A source as the merge is to see it: its own records, action and prune flag. */
  function AsRun(s: Source, runs: map<Key, Key>): Merge.RunSource
    requires Cached(s, runs)
  {
    var h := F.ParseHeader(runs[s.name]);
    Merge.RunSource(RunRecords(R.ReadAll(h.rest, h.dataLen)), s.action, s.prune)
  }

  /** Exactly the sources with a readable run are opened, once each and in configuration order. */
  lemma {:induction false} OpenedInOrder(sources: seq<Source>, runs: map<Key, Key>)
    ensures |Opened(sources, runs)| == Rank(sources, runs)
    ensures forall i :: 0 <= i < |sources| && Cached(sources[i], runs) ==>
              Rank(sources[..i], runs) < Rank(sources, runs)
              && Opened(sources, runs)[Rank(sources[..i], runs)] == AsRun(sources[i], runs)
  {
    hide Opened, Rank, Cached, AsRun;
    OpenedCount(sources, runs);
    forall i | 0 <= i < |sources| && Cached(sources[i], runs)
      ensures Rank(sources[..i], runs) < Rank(sources, runs)
      ensures Opened(sources, runs)[Rank(sources[..i], runs)] == AsRun(sources[i], runs)
    {
      OpenedAt(sources, runs, i);
    }
  }

  lemma {:induction false} OpenedCount(sources: seq<Source>, runs: map<Key, Key>)
    ensures |Opened(sources, runs)| == Rank(sources, runs)
    decreases |sources|
  {
    if sources != [] {
      OpenedCount(sources[..|sources| - 1], runs);
      OpenedOneIs(sources[|sources| - 1], runs);
      hide OpenedOne, Cached, AsRun;
    }
  }

  lemma {:induction false} OpenedAt(sources: seq<Source>, runs: map<Key, Key>, i: nat)
    requires i < |sources| && Cached(sources[i], runs)
    ensures Rank(sources[..i], runs) < Rank(sources, runs) == |Opened(sources, runs)|
    ensures Opened(sources, runs)[Rank(sources[..i], runs)] == AsRun(sources[i], runs)
    decreases |sources|
  {
    hide Opened, Rank, Cached, AsRun;
    var n := |sources| - 1;
    OpenedLast(sources, runs);
    OpenedCount(sources, runs);
    OpenedCount(sources[..n], runs);
    if i < n {
      assert sources[..n][..i] == sources[..i];
      OpenedAt(sources[..n], runs, i);
    }
  }

  lemma {:induction false} OpenedLast(sources: seq<Source>, runs: map<Key, Key>)
    requires sources != []
    ensures var n := |sources| - 1;
            && Opened(sources, runs) == Opened(sources[..n], runs) + (if Cached(sources[n], runs) then [AsRun(sources[n], runs)] else [])
            && Rank(sources, runs) == Rank(sources[..n], runs) + if Cached(sources[n], runs) then 1 else 0
  {
    OpenedOneIs(sources[|sources| - 1], runs);
    hide OpenedOne, Cached, AsRun;
  }

  lemma {:induction false} OpenedOneIs(s: Source, runs: map<Key, Key>)
    ensures OpenedOne(s, runs) == if Cached(s, runs) then [AsRun(s, runs)] else []
  {
    hide F.ParseHeader, R.ReadAll;
  }

  lemma {:induction false} OpenedConcat(a: seq<Source>, b: seq<Source>, runs: map<Key, Key>)
    ensures Opened(a + b, runs) == Opened(a, runs) + Opened(b, runs)
    decreases |b|
  {
    if b == [] {
      assert a + b == a;
    } else {
      var n := |b| - 1;
      assert (a + b)[..|a + b| - 1] == a + b[..n] && (a + b)[|a + b| - 1] == b[n];
      OpenedConcat(a, b[..n], runs);
      hide OpenedOne;
    }
  }

  lemma {:induction false} RankGrows(sources: seq<Source>, runs: map<Key, Key>, i: nat, j: nat)
    requires i <= j <= |sources|
    ensures Rank(sources[..i], runs) <= Rank(sources[..j], runs)
    ensures i < j && Cached(sources[i], runs) ==> Rank(sources[..i], runs) < Rank(sources[..j], runs)
    decreases j
  {
    if i < j {
      RankGrows(sources, runs, i, j - 1);
      assert sources[..j][..j - 1] == sources[..j - 1];
    }
  }

  /** Every opened run is that of a source. */
  lemma {:induction false} OpenedHasSource(sources: seq<Source>, runs: map<Key, Key>, j: nat) returns (i: nat)
    requires j < Rank(sources, runs)
    ensures i < |sources| && Cached(sources[i], runs) && Rank(sources[..i], runs) == j
    decreases |sources|
  {
    var n := |sources| - 1;
    if j < Rank(sources[..n], runs) {
      i := OpenedHasSource(sources[..n], runs, j);
      assert sources[..n][..i] == sources[..i];
    } else {
      i := n;
    }
  }

  // ---------------------------------------------------------------- which source decides a key

  /** The source's stored run holds a record of k. */
  ghost predicate Lists(s: Source, runs: map<Key, Key>, k: Key) {
    s.name in runs && exists v, kept :: IsRun(runs[s.name], v, kept) && exists r: F.Record :: r in kept && r.key == k
  }

  lemma {:induction false} RunIsOpened(s: Source, runs: map<Key, Key>, v: F.Validator, kept: seq<F.Record>)
    requires s.name in runs && IsRun(runs[s.name], v, kept)
    ensures Cached(s, runs) && AsRun(s, runs) == Merge.RunSource(RunRecords(kept), s.action, s.prune)
  {
    hide F.RunBytes, F.ParseHeader, R.ReadAll, R.ReadEnd, F.Payload;
    R.RunRoundTrip(v, kept);
  }

  lemma {:induction false} ListsIsHasKey(s: Source, runs: map<Key, Key>, k: Key)
    requires WellFormed(runs) && Cached(s, runs)
    ensures Lists(s, runs, k) <==> Merge.HasKey(AsRun(s, runs).recs, k)
  {
    hide IsRun, Cached, AsRun;
    assert s.name in runs by {
      CachedHasRun(s, runs);
    }
    var v, kept :| IsRun(runs[s.name], v, kept);
    RunIsOpened(s, runs, v, kept);
    if Lists(s, runs, k) {
      var v', kept' :| IsRun(runs[s.name], v', kept') && exists r: F.Record :: r in kept' && r.key == k;
      RunIsOpened(s, runs, v', kept');
      KeyInRecords(kept', k);
    }
    KeyInRecords(kept, k);
  }

  lemma {:induction false} CachedHasRun(s: Source, runs: map<Key, Key>)
    requires Cached(s, runs)
    ensures s.name in runs
  {
  }

  lemma {:induction false} KeyInRecords(kept: seq<F.Record>, k: Key)
    ensures Merge.HasKey(RunRecords(kept), k) <==> exists r: F.Record :: r in kept && r.key == k
  {
    if r: F.Record :| r in kept && r.key == k {
      var i :| 0 <= i < |kept| && kept[i] == r;
      assert RunRecords(kept)[i].key == k;
    }
    if Merge.HasKey(RunRecords(kept), k) {
      var i :| 0 <= i < |RunRecords(kept)| && RunRecords(kept)[i].key == k;
      assert kept[i] in kept;
    }
  }

  /** w is the last source whose stored run lists k. */
  ghost predicate LastLister(sources: seq<Source>, runs: map<Key, Key>, w: int, k: Key) {
    0 <= w < |sources| && Lists(sources[w], runs, k) && forall j :: w < j < |sources| ==> !Lists(sources[j], runs, k)
  }

  ghost predicate NobodyLists(sources: seq<Source>, runs: map<Key, Key>, k: Key) {
    forall i :: 0 <= i < |sources| ==> !Lists(sources[i], runs, k)
  }

  lemma {:induction false} ListerIsCached(s: Source, runs: map<Key, Key>, k: Key)
    requires Lists(s, runs, k)
    ensures Cached(s, runs)
  {
    hide IsRun;
    var v, kept :| IsRun(runs[s.name], v, kept);
    RunIsOpened(s, runs, v, kept);
  }

  lemma {:induction false} LastListerWins(sources: seq<Source>, runs: map<Key, Key>, w: nat, k: Key)
    requires WellFormed(runs) && LastLister(sources, runs, w, k)
    ensures Cached(sources[w], runs) && Rank(sources[..w], runs) < |Opened(sources, runs)|
    ensures Merge.Winner(Opened(sources, runs), k) == Rank(sources[..w], runs)
    ensures Opened(sources, runs)[Rank(sources[..w], runs)] == AsRun(sources[w], runs)
  {
    hide Lists, Cached, AsRun, WellFormed, Rank, Opened, Merge.HasKey;
    ListerIsCached(sources[w], runs, k);
    OpenedInOrder(sources, runs);
    ListsIsHasKey(sources[w], runs, k);
    var srcs := Opened(sources, runs);
    forall j | Rank(sources[..w], runs) < j < |srcs|
      ensures !Merge.HasKey(srcs[j].recs, k)
    {
      var i := OpenedHasSource(sources, runs, j);
      if i <= w {
        RankGrows(sources, runs, i, w);
      }
      ListsIsHasKey(sources[i], runs, k);
    }
    Merge.WinnerUnique(srcs, k, Rank(sources[..w], runs));
  }

  lemma {:induction false} NobodyWins(sources: seq<Source>, runs: map<Key, Key>, k: Key)
    requires WellFormed(runs) && NobodyLists(sources, runs, k)
    ensures Merge.Winner(Opened(sources, runs), k) == -1
  {
    hide Lists, Cached, AsRun, WellFormed, Rank, Opened, Merge.HasKey;
    OpenedInOrder(sources, runs);
    var srcs := Opened(sources, runs);
    forall j | 0 <= j < |srcs|
      ensures !Merge.HasKey(srcs[j].recs, k)
    {
      var i := OpenedHasSource(sources, runs, j);
      ListsIsHasKey(sources[i], runs, k);
    }
    Merge.WinnerUnique(srcs, k, -1);
  }

  lemma {:induction false} SomeLastLister(sources: seq<Source>, runs: map<Key, Key>, k: Key) returns (w: nat)
    requires !NobodyLists(sources, runs, k)
    ensures LastLister(sources, runs, w, k)
  {
    hide Lists;
    var i: nat :| i < |sources| && Lists(sources[i], runs, k);
    w := i;
    var n := i + 1;
    while n < |sources|
      invariant w < n <= |sources| && Lists(sources[w], runs, k)
      invariant forall j :: w < j < n ==> !Lists(sources[j], runs, k)
    {
      if Lists(sources[n], runs, k) {
        w := n;
      }
      n := n + 1;
    }
  }

  /** A pruning source listed an ancestor of k last, and stands after w. */
  ghost predicate PrunedAfter(sources: seq<Source>, runs: map<Key, Key>, w: nat, k: Key) {
    exists p, j :: LabelCovers(p, k) && LastLister(sources, runs, j, p) && sources[j].prune && w < j
  }

  /** For any number of sources: a key listed somewhere is served exactly when no pruning source
      after its last lister was the last to list one of its ancestors; and then with the action
      of that last lister, in the mode of its record. */
  lemma {:induction false} LastListerDecides(sources: seq<Source>, runs: map<Key, Key>, m: map<Key, Entry>, w: nat, k: Key,
                           v: F.Validator, kept: seq<F.Record>, r: F.Record)
    requires WellFormed(runs) && IsMergeMap(Opened(sources, runs), m)
    requires LastLister(sources, runs, w, k)
    requires IsRun(runs[sources[w].name], v, kept) && r in kept && r.key == k
    ensures k in m <==> !PrunedAfter(sources, runs, w, k)
    ensures k in m ==> m[k].action == sources[w].action
                       && (m[k].mode == MatchExact <==> r.mode == 1) && (m[k].mode == MatchPrefix <==> r.mode == 2)
  {
    PrunedIsOverridden(sources, runs, w, k);
    if k in m {
      LastListerWins(sources, runs, w, k);
      RunIsOpened(sources[w], runs, v, kept);
      ModeOfRecord(kept, r, m[k].mode);
    }
  }

  lemma {:induction false} ModeOfRecord(kept: seq<F.Record>, r: F.Record, mode: MatchMode)
    requires S.AscendingKeys(kept) && r in kept
    ensures Merge.Record(r.key, mode) in RunRecords(kept) ==>
              (mode == MatchExact <==> r.mode == 1) && (mode == MatchPrefix <==> r.mode == 2)
  {
    if Merge.Record(r.key, mode) in RunRecords(kept) {
      var i :| 0 <= i < |kept| && RunRecords(kept)[i] == Merge.Record(r.key, mode);
      var j :| 0 <= j < |kept| && kept[j] == r;
      SameKeySameRecord(kept, i, j);
    }
  }

  lemma {:induction false} SameKeySameRecord(kept: seq<F.Record>, i: nat, j: nat)
    requires S.AscendingKeys(kept) && i < |kept| && j < |kept| && kept[i].key == kept[j].key
    ensures i == j
  {
    LessIrreflexive(kept[i].key);
  }

  lemma {:induction false} PrunedIsOverridden(sources: seq<Source>, runs: map<Key, Key>, w: nat, k: Key)
    requires WellFormed(runs) && LastLister(sources, runs, w, k)
    ensures Merge.Survives(Opened(sources, runs), k) <==> !PrunedAfter(sources, runs, w, k)
  {
    hide Cached, AsRun, WellFormed, Rank, Opened, LabelCovers, Merge.Winner;
    var srcs := Opened(sources, runs);
    LastListerWins(sources, runs, w, k);
    forall p | LabelCovers(p, k)
      ensures Merge.Overrides(srcs, p, k) <==> exists j :: LastLister(sources, runs, j, p) && sources[j].prune && w < j
    {
      OverridesByOrder(sources, runs, w, k, p);
    }
  }

  lemma {:induction false} OverridesByOrder(sources: seq<Source>, runs: map<Key, Key>, w: nat, k: Key, p: Key)
    requires WellFormed(runs) && LastLister(sources, runs, w, k) && LabelCovers(p, k)
    ensures Merge.Overrides(Opened(sources, runs), p, k)
            <==> exists j :: LastLister(sources, runs, j, p) && sources[j].prune && w < j
  {
    hide Cached, WellFormed, Rank, Opened, LabelCovers, Merge.Winner, Lists;
    LastListerWins(sources, runs, w, k);
    if NobodyLists(sources, runs, p) {
      NobodyWins(sources, runs, p);
    } else {
      var j := SomeLastLister(sources, runs, p);
      LastListerWins(sources, runs, j, p);
      forall i | LastLister(sources, runs, i, p)
        ensures i == j
      {
      }
      if w < j {
        RankGrows(sources, runs, w, j);
      } else {
        RankGrows(sources, runs, j, w);
      }
    }
  }

  // ---------------------------------------------------------------- from the list to the answer

  /** The list holds the domain, or an ancestor of it together with its subdomains. */
  ghost predicate Covered(entries: seq<ListEntry>, d: Key) {
    exists e: ListEntry :: e in entries && (e.domain == d || (e.subdomains && D.IsSubdomain(d, e.domain)))
  }

  ghost predicate CleanEntries(entries: seq<ListEntry>) {
    forall e: ListEntry :: e in entries ==> Labels.Clean(e.domain) && e.domain != []
  }

  /** The source's stored run is the download, which fits the run format. */
  ghost predicate Holds(s: Source, d: Download, runs: map<Key, Key>) {
    StoredFrom(s, d, runs) && Writable(d.v.(fingerprint := s.fingerprint), d.entries)
  }

  /** What compaction leaves of a list: a record for each entry's key, of mode 2 exactly when
      one of the entries for that key has subdomains, else of mode 1. */
  lemma {:induction false} KeptFromEntries(entries: seq<ListEntry>, recs: seq<F.Record>, kept: seq<F.Record>, k: Key)
    requires RecordsOf(entries, recs) && S.IsCompaction(recs, kept)
    ensures (exists r: F.Record :: r in kept && r.key == k) <==> exists e: ListEntry :: e in entries && Labels.Reverse(e.domain) == k
    ensures F.Record(k, 2) in kept <==> exists e: ListEntry :: e in entries && Labels.Reverse(e.domain) == k && e.subdomains
  {
    hide Labels.Reverse, S.AscendingKeys;
    forall r: F.Record | r in kept && r.key == k
      ensures exists e: ListEntry :: e in entries && Labels.Reverse(e.domain) == k && (r.mode == 2 <==> e.subdomains)
      ensures r.mode == 1 || r.mode == 2
    {
      var j :| 0 <= j < |recs| && recs[j] == r;
      assert entries[j] in entries;
    }
    forall e: ListEntry | e in entries && Labels.Reverse(e.domain) == k
      ensures exists r: F.Record :: r in kept && r.key == k && (e.subdomains ==> r.mode == 2)
    {
      var j :| 0 <= j < |entries| && entries[j] == e;
      assert recs[j] in recs;
      assert S.Kept(kept, recs[j]);
      var r: F.Record :| r in kept && r.key == recs[j].key && r.mode >= recs[j].mode;
    }
    if exists e: ListEntry :: e in entries && Labels.Reverse(e.domain) == k && e.subdomains {
      var r: F.Record :| r in kept && r.key == k && r.mode == 2;
      assert r == F.Record(k, 2);
    }
  }

  lemma {:induction false} HeldRun(s: Source, d: Download, runs: map<Key, Key>) returns (v: F.Validator, recs: seq<F.Record>, kept: seq<F.Record>)
    requires Holds(s, d, runs)
    ensures s.name in runs && IsRun(runs[s.name], v, kept) && RecordsOf(d.entries, recs) && S.IsCompaction(recs, kept)
  {
    hide F.RunBytes, Writable, RecordsOf, S.IsCompaction, IsRun;
    v := d.v.(fingerprint := s.fingerprint);
    recs, kept :| RecordsOf(d.entries, recs) && S.IsCompaction(recs, kept) && runs[s.name] == F.RunBytes(v, kept);
    WritableIsRun(v, d.entries, recs, kept);
  }

  /** An entry with subdomains in a pruning last source: its domain and every subdomain get that
      source's action, whatever the other sources list. */
  lemma {:induction false} EntryOverrides(sources: seq<Source>, runs: map<Key, Key>, m: map<Key, Entry>, d: Download, e: ListEntry, q: Key)
    requires WellFormed(runs) && IsMergeMap(Opened(sources, runs), m)
    requires sources != [] && Holds(sources[|sources| - 1], d, runs) && sources[|sources| - 1].prune
    requires e in d.entries && e.subdomains && Labels.Clean(e.domain) && e.domain != []
    requires Labels.Clean(q) && q != [] && (q == e.domain || D.IsSubdomain(q, e.domain))
    ensures Answer(m, Labels.Reverse(q)) == sources[|sources| - 1].action
  {
    hide Labels.Reverse, Labels.Clean, Answer, WellFormed, IsMergeMap, Opened, IsRun, Holds, RecordsOf, S.IsCompaction;
    var v, recs, kept := HeldRun(sources[|sources| - 1], d, runs);
    KeptFromEntries(d.entries, recs, kept, Labels.Reverse(e.domain));
    StoredOverrideServed(sources, runs, m, v, kept, e.domain, q);
  }

  /** An entry of any kind in the last source gives its own domain that source's action. */
  lemma {:induction false} EntryServed(sources: seq<Source>, runs: map<Key, Key>, m: map<Key, Entry>, d: Download, e: ListEntry)
    requires WellFormed(runs) && IsMergeMap(Opened(sources, runs), m)
    requires sources != [] && Holds(sources[|sources| - 1], d, runs) && e in d.entries
    ensures Answer(m, Labels.Reverse(e.domain)) == sources[|sources| - 1].action
  {
    hide Labels.Reverse, WellFormed, IsMergeMap, Opened, IsRun, Holds, RecordsOf, S.IsCompaction;
    var w, k := |sources| - 1, Labels.Reverse(e.domain);
    var v, recs, kept := HeldRun(sources[w], d, runs);
    KeptFromEntries(d.entries, recs, kept, k);
    var r: F.Record :| r in kept && r.key == k;
    assert LastLister(sources, runs, w, k);
    LastListerDecides(sources, runs, m, w, k, v, kept, r);
  }

  ghost predicate AllHold(sources: seq<Source>, ds: seq<Download>, runs: map<Key, Key>) {
    |ds| == |sources| && forall i :: 0 <= i < |sources| ==> Holds(sources[i], ds[i], runs)
  }

  lemma {:induction false} ListsIsEntry(s: Source, d: Download, runs: map<Key, Key>, k: Key)
    requires Holds(s, d, runs)
    ensures Lists(s, runs, k) <==> exists e: ListEntry :: e in d.entries && Labels.Reverse(e.domain) == k
  {
    hide Labels.Reverse, IsRun, Holds, RecordsOf, S.IsCompaction;
    var v, recs, kept := HeldRun(s, d, runs);
    KeptFromEntries(d.entries, recs, kept, k);
    if Lists(s, runs, k) {
      var v', kept' :| IsRun(runs[s.name], v', kept') && exists r: F.Record :: r in kept' && r.key == k;
      SameRecords(runs[s.name], v, kept, v', kept');
    }
  }

  lemma {:induction false} SameRecords(file: Key, v: F.Validator, kept: seq<F.Record>, v': F.Validator, kept': seq<F.Record>)
    requires IsRun(file, v, kept) && IsRun(file, v', kept')
    ensures kept == kept'
  {
    hide F.RunBytes, F.ParseHeader, R.ReadAll, R.ReadEnd, F.Payload;
    R.RunRoundTrip(v, kept);
    R.RunRoundTrip(v', kept');
  }

  /** A key that is served was listed by the entries of its last lister, and covers what is below
      it only if one of those entries has subdomains. */
  lemma {:induction false} ServedFromEntry(sources: seq<Source>, ds: seq<Download>, runs: map<Key, Key>, m: map<Key, Entry>, k: Key)
    returns (w: nat, e: ListEntry)
    requires WellFormed(runs) && IsMergeMap(Opened(sources, runs), m) && AllHold(sources, ds, runs) && k in m
    ensures w < |ds| == |sources| && LastLister(sources, runs, w, k) && m[k].action == sources[w].action
    ensures e in ds[w].entries && Labels.Reverse(e.domain) == k && (m[k].mode == MatchPrefix ==> e.subdomains)
  {
    hide Labels.Reverse, WellFormed, Opened, IsRun, Holds, RecordsOf, S.IsCompaction, Lists;
    assert Merge.Survives(Opened(sources, runs), k);
    if NobodyLists(sources, runs, k) {
      NobodyWins(sources, runs, k);
      assert false;
    } else {
      w := SomeLastLister(sources, runs, k);
      var v, recs, kept := HeldRun(sources[w], ds[w], runs);
      ListsIsEntry(sources[w], ds[w], runs, k);
      KeptFromEntries(ds[w].entries, recs, kept, k);
      var r: F.Record :| r in kept && r.key == k;
      LastListerDecides(sources, runs, m, w, k, v, kept, r);
      if r.mode == 2 {
        assert r == F.Record(k, 2);
        e :| e in ds[w].entries && Labels.Reverse(e.domain) == k && e.subdomains;
      } else {
        e :| e in ds[w].entries && Labels.Reverse(e.domain) == k;
      }
    }
  }

  /** A domain that no list covers passes: an entry without subdomains says nothing about them. */
  lemma {:induction false} UncoveredPasses(sources: seq<Source>, ds: seq<Download>, runs: map<Key, Key>, m: map<Key, Entry>, q: Key)
    requires WellFormed(runs) && IsMergeMap(Opened(sources, runs), m) && AllHold(sources, ds, runs)
    requires forall i :: 0 <= i < |ds| ==> CleanEntries(ds[i].entries) && !Covered(ds[i].entries, q)
    requires Labels.Clean(q) && q != []
    ensures Answer(m, Labels.Reverse(q)) == Pass
  {
    hide Labels.Reverse, Labels.Clean, Answer, WellFormed, IsMergeMap, Opened, AllHold, D.IsSubdomain, Covered, CleanEntries;
    if Labels.Reverse(q) in m {
      var w := CoveredByServed(sources, ds, runs, m, q, q);
    }
    forall p | Labels.Clean(p) && D.IsSubdomain(q, p)
      ensures !D.ListsBelow(m, p)
    {
      if D.ListsBelow(m, p) {
        var w := CoveredByServed(sources, ds, runs, m, p, q);
      }
    }
    D.UnlistedPasses(m, q);
  }

  /** If p's key is served, and for subdomains too when q is one of them, some list covers q. */
  lemma {:induction false} CoveredByServed(sources: seq<Source>, ds: seq<Download>, runs: map<Key, Key>, m: map<Key, Entry>, p: Key, q: Key)
    returns (w: nat)
    requires WellFormed(runs) && IsMergeMap(Opened(sources, runs), m) && AllHold(sources, ds, runs)
    requires forall i :: 0 <= i < |ds| ==> CleanEntries(ds[i].entries)
    requires Labels.Clean(p) && Labels.Reverse(p) in m
    requires p == q || (D.IsSubdomain(q, p) && D.ListsBelow(m, p))
    ensures w < |ds| && Covered(ds[w].entries, q)
  {
    hide Labels.Reverse, Labels.Clean, WellFormed, IsMergeMap, Opened, Holds, D.IsSubdomain, LastLister;
    var e;
    w, e := ServedFromEntry(sources, ds, runs, m, Labels.Reverse(p));
    SameDomain(p, e.domain);
  }

  lemma {:induction false} SameDomain(a: Key, b: Key)
    requires Labels.Clean(a) && Labels.Clean(b) && Labels.Reverse(a) == Labels.Reverse(b)
    ensures a == b
  {
    hide Labels.Reverse, Labels.Clean;
    Labels.ReverseInvolution(a);
    Labels.ReverseInvolution(b);
  }

  /** One list alone: exactly the domains it covers get its action, all others pass. */
  lemma {:induction false} ListServes(s: Source, d: Download, runs: map<Key, Key>, m: map<Key, Entry>, q: Key)
    requires WellFormed(runs) && IsMergeMap(Opened([s], runs), m) && Holds(s, d, runs)
    requires CleanEntries(d.entries) && Labels.Clean(q) && q != []
    ensures Answer(m, Labels.Reverse(q)) == if Covered(d.entries, q) then s.action else Pass
  {
    hide Labels.Reverse, Labels.Clean, WellFormed, IsMergeMap, Opened, D.IsSubdomain, Holds, Answer, Covered, CleanEntries;
    if Covered(d.entries, q) {
      CoveredServed(s, d, runs, m, q);
    } else {
      assert AllHold([s], [d], runs);
      UncoveredPasses([s], [d], runs, m, q);
    }
  }

  lemma {:induction false} CoveredServed(s: Source, d: Download, runs: map<Key, Key>, m: map<Key, Entry>, q: Key)
    requires WellFormed(runs) && IsMergeMap(Opened([s], runs), m) && Holds(s, d, runs)
    requires CleanEntries(d.entries) && Labels.Clean(q) && q != [] && Covered(d.entries, q)
    ensures Answer(m, Labels.Reverse(q)) == s.action
  {
    hide Labels.Reverse, Labels.Clean, WellFormed, IsMergeMap, Opened, D.IsSubdomain, Holds, Answer;
    var e: ListEntry :| e in d.entries && (e.domain == q || (e.subdomains && D.IsSubdomain(q, e.domain)));
    if e.domain == q {
      EntryServed([s], runs, m, d, e);
    } else {
      CoveredBelow(s, d, runs, m, e, q);
    }
  }

  lemma {:induction false} CoveredBelow(s: Source, d: Download, runs: map<Key, Key>, m: map<Key, Entry>, e: ListEntry, q: Key)
    requires WellFormed(runs) && IsMergeMap(Opened([s], runs), m) && Holds(s, d, runs)
    requires e in d.entries && e.subdomains && Labels.Clean(e.domain) && e.domain != []
    requires Labels.Clean(q) && q != [] && D.IsSubdomain(q, e.domain)
    ensures Answer(m, Labels.Reverse(q)) == s.action
  {
    hide Labels.Reverse, Labels.Clean, WellFormed, IsMergeMap, Opened, Holds, IsRun, RecordsOf, S.IsCompaction;
    var k := Labels.Reverse(e.domain);
    var v, recs, kept := HeldRun(s, d, runs);
    KeptFromEntries(d.entries, recs, kept, k);
    assert LastLister([s], runs, 0, k);
    LastListerDecides([s], runs, m, 0, k, v, kept, F.Record(k, 2));
    assert AllHold([s], [d], runs);
    AllActions(s, d, runs, m);
    assert D.ListsBelow(m, e.domain);
    D.AncestorIsCover(m, q, e.domain);
  }

  lemma {:induction false} AllActions(s: Source, d: Download, runs: map<Key, Key>, m: map<Key, Entry>)
    requires WellFormed(runs) && IsMergeMap(Opened([s], runs), m) && AllHold([s], [d], runs)
    ensures forall k :: k in m ==> m[k].action == s.action
  {
    hide Labels.Reverse, WellFormed, IsMergeMap, Opened, AllHold;
    forall k | k in m
      ensures m[k].action == s.action
    {
      var w, e := ServedFromEntry([s], [d], runs, m, k);
    }
  }

  // ---------------------------------------------------------------- the whole way

  /** A rebuild, then a lookup. When the last source was updated, the domains of its list get its
      action, and if it prunes so does everything below those listed with subdomains; when all
      sources were updated, whatever no list covers passes. */
  method RebuildAndLookup(r: Router, fetches: seq<Fetch>, disk: Disk, q: Key) returns (a: Action, ghost results: seq<RefreshResult>)
    requires r.Valid() && WellFormed(r.store.runs) && r.WritableRound(fetches) && DistinctNames(r.sources)
    requires Labels.Clean(q) && q != []
    modifies r, r.store
    ensures r.Valid() && |results| == |r.sources| == |fetches|
    ensures forall e :: LastHas(r.sources, fetches, results, e) && q == e.domain ==> a == r.sources[|r.sources| - 1].action
    ensures forall e :: (&& LastHas(r.sources, fetches, results, e) && r.sources[|r.sources| - 1].prune && e.subdomains
                         && Labels.Clean(e.domain) && e.domain != [] && D.IsSubdomain(q, e.domain))
                        ==> a == r.sources[|r.sources| - 1].action
    ensures (&& AllUpdated(fetches, results) && r.sources != []
             && (forall i :: 0 <= i < |fetches| ==>
                   CleanEntries(fetches[i].got.value.entries) && !Covered(fetches[i].got.value.entries, q)))
            ==> a == Pass
  {
    hide WellFormed, IsMergeMap, Opened, StorableMap, Represents, Encodes, Writable, DistinctNames, WrittenBy, AllAnswer, NothingNew,
         AllNamed, IndexOf, Answer, Labels.Reverse, Labels.Clean, Covered, CleanEntries, D.IsSubdomain, Settled, StoredFrom, Holds, AllHold;
    var compiled, saved, removed;
    ghost var complete;
    compiled, saved, results, removed, complete := r.Rebuild(fetches, disk);
    a := r.LookupAction(q);
    ghost var m := r.entries;
    forall e | LastHas(r.sources, fetches, results, e)
      ensures q == e.domain ==> a == r.sources[|r.sources| - 1].action
      ensures r.sources[|r.sources| - 1].prune && e.subdomains && Labels.Clean(e.domain) && e.domain != [] && D.IsSubdomain(q, e.domain)
              ==> a == r.sources[|r.sources| - 1].action
    {
      var w := |r.sources| - 1;
      SettledHolds(r.sources[w], fetches[w], results[w], r.store.runs);
      if q == e.domain {
        EntryServed(r.sources, r.store.runs, m, fetches[w].got.value, e);
      }
      if r.sources[w].prune && e.subdomains && Labels.Clean(e.domain) && e.domain != [] && D.IsSubdomain(q, e.domain) {
        EntryOverrides(r.sources, r.store.runs, m, fetches[w].got.value, e, q);
      }
    }
    if AllUpdated(fetches, results) && r.sources != []
       && forall i :: 0 <= i < |fetches| ==> CleanEntries(fetches[i].got.value.entries) && !Covered(fetches[i].got.value.entries, q) {
      ghost var ds := seq(|fetches|, i requires 0 <= i < |fetches| => fetches[i].got.value);
      AllUpdatedHold(r.sources, fetches, results, r.store.runs, ds);
      assert results[0] == Updated;
      UncoveredPasses(r.sources, ds, r.store.runs, m, q);
    }
  }

  /** The last source was updated, and its list holds e. */
  ghost predicate LastHas(sources: seq<Source>, fetches: seq<Fetch>, results: seq<RefreshResult>, e: ListEntry) {
    && sources != [] && |fetches| == |results| == |sources|
    && var w := |sources| - 1;
       results[w] == Updated && fetches[w].got.Some? && e in fetches[w].got.value.entries
  }

  ghost predicate AllUpdated(fetches: seq<Fetch>, results: seq<RefreshResult>) {
    |results| == |fetches| && forall i :: 0 <= i < |fetches| ==> results[i] == Updated && fetches[i].got.Some?
  }

  lemma {:induction false} SettledHolds(s: Source, fetch: Fetch, r: RefreshResult, runs: map<Key, Key>)
    requires Settled(s, fetch, r, runs) && r == Updated && WritableFetch(s, fetch)
    ensures fetch.got.Some? && Holds(s, fetch.got.value, runs)
  {
    hide StoredFrom, Writable;
  }

  lemma {:induction false} AllUpdatedHold(sources: seq<Source>, fetches: seq<Fetch>, results: seq<RefreshResult>, runs: map<Key, Key>,
                        ds: seq<Download>)
    requires AllSettled(sources, fetches, results, runs) && AllUpdated(fetches, results)
    requires forall i :: 0 <= i < |sources| ==> WritableFetch(sources[i], fetches[i])
    requires |ds| == |fetches| && forall i :: 0 <= i < |ds| ==> ds[i] == fetches[i].got.value
    ensures AllHold(sources, ds, runs)
  {
    hide Settled, Holds, WritableFetch;
    forall i | 0 <= i < |sources|
      ensures Holds(sources[i], ds[i], runs)
    {
      SettledHolds(sources[i], fetches[i], results[i], runs);
    }
  }
}
