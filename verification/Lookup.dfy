// What a lookup is meant to answer, stated on the finite map the merge produces:
// the entry of the key itself, else the longest Prefix entry at a label boundary, else Pass.
module Lookup {
  import opened Bytes
  import opened Actions
  import opened Merge

  /** The first i bytes of s end at a label boundary and hold a Prefix entry. */
  predicate IsCover(m: map<Key, Entry>, s: Key, i: int) {
    0 < i < |s| && s[i] == DOT && s[..i] in m && m[s[..i]].mode == MatchPrefix
  }

  /** The longest cover of s below n, or 0. */
  function LongestCover(m: map<Key, Entry>, s: Key, n: nat): (r: nat)
    ensures r != 0 ==> r < n && IsCover(m, s, r)
    ensures forall i :: r < i < n ==> !IsCover(m, s, i)
  {
    if n == 0 then 0
    else if IsCover(m, s, n - 1) then n - 1
    else LongestCover(m, s, n - 1)
  }

  function Answer(m: map<Key, Entry>, s: Key): Action {
    if s in m then m[s].action
    else
      var i := LongestCover(m, s, |s|);
      if i != 0 then m[s[..i]].action else Pass
  }

  lemma {:induction false} LongestCoverUnique(m: map<Key, Entry>, s: Key, i: nat)
    requires i != 0 ==> IsCover(m, s, i)
    requires forall j :: i < j < |s| ==> !IsCover(m, s, j)
    ensures LongestCover(m, s, |s|) == i
  {
    var k := LongestCover(m, s, |s|);
  }

  /** m holds exactly the surviving keys, each with its winner's entry. */
  ghost predicate IsMergeMap(srcs: seq<RunSource>, m: map<Key, Entry>) {
    && (forall k :: k in m <==> Survives(srcs, k))
    && (forall k :: k in m ==> Rightful(srcs, Emitted(k, m[k])))
  }

  ghost function ModeOf(recs: seq<Record>, k: Key): MatchMode
    requires HasKey(recs, k)
  {
    var r :| 0 <= r < |recs| && recs[r].key == k;
    recs[r].mode
  }

  /** That map, from the sources. */
  ghost function MergeMap(srcs: seq<RunSource>): map<Key, Entry> {
    map k | k in AllKeys(srcs) && Survives(srcs, k) ::
      Entry(srcs[Winner(srcs, k)].action, ModeOf(srcs[Winner(srcs, k)].recs, k))
  }

  lemma {:induction false} MergeMapHolds(srcs: seq<RunSource>)
    ensures IsMergeMap(srcs, MergeMap(srcs))
    ensures forall k :: k in MergeMap(srcs) ==>
              MergeMap(srcs)[k] == Entry(srcs[Winner(srcs, k)].action, ModeOf(srcs[Winner(srcs, k)].recs, k))
  {
    forall k | Survives(srcs, k)
      ensures k in AllKeys(srcs)
      ensures Record(k, ModeOf(srcs[Winner(srcs, k)].recs, k)) in srcs[Winner(srcs, k)].recs
    {
      assert HasKey(srcs[Winner(srcs, k)].recs, k);
    }
  }

  /** The sources determine that map. */
  lemma {:induction false} MergeMapUnique(srcs: seq<RunSource>, m: map<Key, Entry>, m': map<Key, Entry>)
    requires SortedRuns(srcs) && IsMergeMap(srcs, m) && IsMergeMap(srcs, m')
    ensures m == m'
  {
    forall k | k in m
      ensures k in m' && m[k] == m'[k]
    {
      assert Survives(srcs, k);
      var recs := srcs[Winner(srcs, k)].recs;
      var i :| 0 <= i < |recs| && recs[i] == Record(k, m[k].mode);
      var j :| 0 <= j < |recs| && recs[j] == Record(k, m'[k].mode);
      LessIrreflexive(k);
      assert Less(recs[i].key, recs[j].key) || Less(recs[j].key, recs[i].key) || i == j;
    }
    forall k | k in m'
      ensures k in m
    {
      assert Survives(srcs, k);
    }
  }

  ghost function MapOf(out: seq<Emitted>): map<Key, Entry> {
    if out == [] then map[]
    else MapOf(out[..|out| - 1])[out[|out| - 1].key := out[|out| - 1].entry]
  }

  ghost predicate AscendingOut(out: seq<Emitted>) {
    forall i, j :: 0 <= i < j < |out| ==> Less(out[i].key, out[j].key)
  }

  ghost predicate Emits(out: seq<Emitted>, k: Key) {
    exists i :: 0 <= i < |out| && out[i].key == k
  }

  lemma {:induction false} MapOfKeys(out: seq<Emitted>, k: Key)
    ensures k in MapOf(out) <==> Emits(out, k)
    decreases |out|
  {
    if out != [] {
      var n := |out| - 1;
      MapOfKeys(out[..n], k);
      if Emits(out, k) && k != out[n].key {
        var i :| 0 <= i < |out| && out[i].key == k;
        assert out[..n][i].key == k;
      }
      if Emits(out[..n], k) {
        var i :| 0 <= i < n && out[..n][i].key == k;
        assert out[i].key == k;
      }
    }
  }

  lemma {:induction false} MapOfEntry(out: seq<Emitted>, i: nat)
    requires AscendingOut(out) && i < |out|
    ensures out[i].key in MapOf(out) && MapOf(out)[out[i].key] == out[i].entry
    decreases |out|
  {
    var n := |out| - 1;
    if i < n {
      assert out[..n][i] == out[i];
      assert AscendingOut(out[..n]);
      MapOfEntry(out[..n], i);
      assert Less(out[i].key, out[n].key);
      LessIrreflexive(out[i].key);
    }
  }

  /** The emissions of a merge, collected, are the merge map. */
  lemma {:induction false} MergedMap(srcs: seq<RunSource>, out: seq<Emitted>)
    requires IsMerge(srcs, out)
    ensures IsMergeMap(srcs, MapOf(out))
  {
    hide MapOf;
    forall k
      ensures k in MapOf(out) <==> Survives(srcs, k)
      ensures k in MapOf(out) ==> Rightful(srcs, Emitted(k, MapOf(out)[k]))
    {
      MapOfKeys(out, k);
      if k in MapOf(out) {
        var i :| 0 <= i < |out| && out[i].key == k;
        MapOfEntry(out, i);
        assert out[i] == Emitted(k, MapOf(out)[k]);
      }
    }
  }

  // ---------------------------------------------------------------- overriding a list

  lemma {:induction false} LastSourceWins(srcs: seq<RunSource>, k: Key)
    requires srcs != [] && HasKey(srcs[|srcs| - 1].recs, k)
    ensures Winner(srcs, k) == |srcs| - 1 && Survives(srcs, k)
  {
    WinnerUnique(srcs, k, |srcs| - 1);
  }

  /** Below a Prefix key of a pruning last source, only that source's entries survive. */
  lemma {:induction false} OnlyOverriderBelow(srcs: seq<RunSource>, m: map<Key, Entry>, p: Key, k: Key)
    requires srcs != [] && srcs[|srcs| - 1].prune && HasKey(srcs[|srcs| - 1].recs, p)
    requires IsMergeMap(srcs, m) && k in m
    requires k == p || LabelCovers(p, k)
    ensures m[k].action == srcs[|srcs| - 1].action
  {
    LastSourceWins(srcs, p);
    assert Survives(srcs, k);
    assert k != p ==> !Overrides(srcs, p, k);
    assert Rightful(srcs, Emitted(k, m[k]));
  }

  /** Operator override: if the last source prunes and lists p with its subdomains, then p
      and everything below it resolves to that source's action, whatever the others list. */
  lemma {:induction false} OperatorOverride(srcs: seq<RunSource>, m: map<Key, Entry>, p: Key, s: Key)
    requires srcs != [] && srcs[|srcs| - 1].prune && Record(p, MatchPrefix) in srcs[|srcs| - 1].recs
    requires SortedRuns(srcs) && IsMergeMap(srcs, m) && p != []
    requires s == p || LabelCovers(p, s)
    ensures Answer(m, s) == srcs[|srcs| - 1].action
  {
    var recs := srcs[|srcs| - 1].recs;
    var r :| 0 <= r < |recs| && recs[r] == Record(p, MatchPrefix);
    assert HasKey(recs, p);
    LastSourceWins(srcs, p);
    if s in m {
      OnlyOverriderBelow(srcs, m, p, s);
    } else {
      PrefixEntryOfLast(srcs, m, p);
      assert s[..|p|] == p;
      var i := LongestCover(m, s, |s|);
      assert IsCover(m, s, |p|);
      assert s[..i] == p || LabelCovers(p, s[..i]);
      OnlyOverriderBelow(srcs, m, p, s[..i]);
    }
  }

  lemma {:induction false} PrefixEntryOfLast(srcs: seq<RunSource>, m: map<Key, Entry>, p: Key)
    requires srcs != [] && Record(p, MatchPrefix) in srcs[|srcs| - 1].recs
    requires SortedRuns(srcs) && IsMergeMap(srcs, m)
    ensures p in m && m[p].mode == MatchPrefix
  {
    var recs := srcs[|srcs| - 1].recs;
    var i :| 0 <= i < |recs| && recs[i] == Record(p, MatchPrefix);
    assert HasKey(recs, p);
    LastSourceWins(srcs, p);
    assert Rightful(srcs, Emitted(p, m[p]));
    var j :| 0 <= j < |recs| && recs[j] == Record(p, m[p].mode);
    LessIrreflexive(p);
    assert Less(recs[i].key, recs[j].key) || Less(recs[j].key, recs[i].key) || i == j;
  }
}
