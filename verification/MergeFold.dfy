// The merge compared with the process the documentation describes: sources taken one by one,
// each overwriting equal keys, a pruning source first cutting everything below its own keys.
module MergeFold {
  import opened Bytes
  import opened Actions
  import opened Merge
  import opened Lookup

  ghost function RunKeys(recs: seq<Record>): set<Key> {
    set r | 0 <= r < |recs| :: recs[r].key
  }

  /** Some key of the run is a strict ancestor of k. */
  ghost predicate Cuts(recs: seq<Record>, k: Key) {
    exists p :: HasKey(recs, p) && LabelCovers(p, k)
  }

  /** One source applied to what the sources before it left. */
  ghost function Absorb(m: map<Key, Entry>, src: RunSource): map<Key, Entry> {
    (map k | k in m && !(src.prune && Cuts(src.recs, k)) :: m[k])
    + (map k | k in RunKeys(src.recs) :: Entry(src.action, ModeOf(src.recs, k)))
  }

  ghost function Fold(srcs: seq<RunSource>, n: nat): map<Key, Entry>
    requires n <= |srcs|
  {
    if n == 0 then map[] else Absorb(Fold(srcs, n - 1), srcs[n - 1])
  }

  /** Among the first n sources, one after k's winner prunes and lists an ancestor of k. */
  ghost predicate CutLater(srcs: seq<RunSource>, n: nat, k: Key)
    requires n <= |srcs|
  {
    exists j :: WinnerBelow(srcs, n, k) < j < n && srcs[j].prune && Cuts(srcs[j].recs, k)
  }

  /** What is left after n sources: every key with its last writer, unless cut later. */
  lemma {:induction false} FoldHolds(srcs: seq<RunSource>, n: nat, k: Key)
    requires n <= |srcs|
    ensures k in Fold(srcs, n) <==> WinnerBelow(srcs, n, k) >= 0 && !CutLater(srcs, n, k)
    ensures k in Fold(srcs, n) ==>
              var src := srcs[WinnerBelow(srcs, n, k)];
              Fold(srcs, n)[k] == Entry(src.action, ModeOf(src.recs, k))
    decreases n
  {
    if 0 < n {
      FoldHolds(srcs, n - 1, k);
      AbsorbHolds(Fold(srcs, n - 1), srcs[n - 1], k);
      CutLaterStep(srcs, n, k);
      hide Absorb, CutLater, Cuts, HasKey;
    }
  }

  lemma {:induction false} AbsorbHolds(m: map<Key, Entry>, src: RunSource, k: Key)
    ensures k in Absorb(m, src) <==> HasKey(src.recs, k) || (k in m && !(src.prune && Cuts(src.recs, k)))
    ensures HasKey(src.recs, k) ==> Absorb(m, src)[k] == Entry(src.action, ModeOf(src.recs, k))
    ensures !HasKey(src.recs, k) && k in Absorb(m, src) ==> Absorb(m, src)[k] == m[k]
  {
    assert k in RunKeys(src.recs) <==> HasKey(src.recs, k);
  }

  lemma {:induction false} CutLaterStep(srcs: seq<RunSource>, n: nat, k: Key)
    requires 0 < n <= |srcs|
    ensures HasKey(srcs[n - 1].recs, k) ==> !CutLater(srcs, n, k)
    ensures !HasKey(srcs[n - 1].recs, k) ==>
              CutLater(srcs, n, k) ==
              (CutLater(srcs, n - 1, k)
               || (WinnerBelow(srcs, n - 1, k) < n - 1 && srcs[n - 1].prune && Cuts(srcs[n - 1].recs, k)))
  {
    if CutLater(srcs, n - 1, k) && !HasKey(srcs[n - 1].recs, k) {
      var j :| WinnerBelow(srcs, n - 1, k) < j < n - 1 && srcs[j].prune && Cuts(srcs[j].recs, k);
      assert WinnerBelow(srcs, n, k) < j < n;
    }
  }

  /** Everything the merge keeps or drops by pruning, the fold drops too. */
  lemma {:induction false} FoldKeepsNoMore(srcs: seq<RunSource>, k: Key)
    requires k in Fold(srcs, |srcs|)
    ensures Survives(srcs, k)
  {
    forall p | Overrides(srcs, p, k)
      ensures CutLater(srcs, |srcs|, k)
    {
      assert Cuts(srcs[Winner(srcs, p)].recs, k);
    }
    FoldHolds(srcs, |srcs|, k);
  }

  /** Source j prunes and lists p, but p was finally won by a source that does not prune, and
      so never reaches the prune stack. */
  ghost predicate TakenOver(srcs: seq<RunSource>, j: nat, p: Key) {
    j < |srcs| && srcs[j].prune && HasKey(srcs[j].recs, p) && !PruneKey(srcs, p)
  }

  /** Some key won by a pruning source after k's winner covers k. */
  ghost predicate CutByWinner(srcs: seq<RunSource>, k: Key) {
    exists q :: Overrides(srcs, q, k)
  }

  /** A key won before source j, below a key of j that was taken over, and below no key that
      still prunes. */
  ghost predicate Hidden(srcs: seq<RunSource>, j: nat, p: Key, k: Key) {
    TakenOver(srcs, j, p) && LabelCovers(p, k) && 0 <= Winner(srcs, k) < j && !CutByWinner(srcs, k)
  }

  ghost predicate IsHidden(srcs: seq<RunSource>, k: Key) {
    exists j: nat, p :: Hidden(srcs, j, p, k)
  }

  /** A hidden key is kept by the merge and dropped by the fold, and only those differ. */
  lemma {:induction false} DiffersExactly(srcs: seq<RunSource>, k: Key)
    ensures (k in Fold(srcs, |srcs|) <==> Survives(srcs, k)) <==> !IsHidden(srcs, k)
  {
    FoldHolds(srcs, |srcs|, k);
    if Survives(srcs, k) && CutLater(srcs, |srcs|, k) {
      var j :| Winner(srcs, k) < j < |srcs| && srcs[j].prune && Cuts(srcs[j].recs, k);
      var p :| HasKey(srcs[j].recs, p) && LabelCovers(p, k);
      assert !Overrides(srcs, p, k);
      assert Hidden(srcs, j, p, k);
    }
    if j: nat, p :| Hidden(srcs, j, p, k) {
      assert Cuts(srcs[j].recs, k);
      assert CutLater(srcs, |srcs|, k);
      assert forall q :: !Overrides(srcs, q, k);
    }
    if k in Fold(srcs, |srcs|) {
      FoldKeepsNoMore(srcs, k);
    }
  }

  lemma {:induction false} EntriesAgree(srcs: seq<RunSource>, k: Key)
    ensures k in Fold(srcs, |srcs|) && k in MergeMap(srcs) ==> Fold(srcs, |srcs|)[k] == MergeMap(srcs)[k]
    ensures (k in Fold(srcs, |srcs|) <==> k in MergeMap(srcs)) <==> !IsHidden(srcs, k)
  {
    MergeMapHolds(srcs);
    FoldHolds(srcs, |srcs|, k);
    DiffersExactly(srcs, k);
    hide Fold, MergeMap, IsHidden, Survives, CutLater, ModeOf;
  }

  /** Source-by-source folding and the merge give the same map, entries included, exactly when
      no cut is hidden by a takeover. */
  lemma {:induction false} FoldIsMergeExactly(srcs: seq<RunSource>)
    ensures Fold(srcs, |srcs|) == MergeMap(srcs) <==> forall k :: !IsHidden(srcs, k)
  {
    hide Fold, MergeMap, IsHidden;
    forall k
      ensures k in Fold(srcs, |srcs|) && k in MergeMap(srcs) ==> Fold(srcs, |srcs|)[k] == MergeMap(srcs)[k]
      ensures (k in Fold(srcs, |srcs|) <==> k in MergeMap(srcs)) <==> !IsHidden(srcs, k)
    {
      EntriesAgree(srcs, k);
    }
  }

  /** No key of a pruning source is won by a source that does not prune. */
  ghost predicate PruneKeysKept(srcs: seq<RunSource>) {
    forall j: nat, p :: !TakenOver(srcs, j, p)
  }

  /** When that holds, the merge is the source-by-source fold. */
  lemma {:induction false} MergeIsFold(srcs: seq<RunSource>)
    requires PruneKeysKept(srcs)
    ensures Fold(srcs, |srcs|) == MergeMap(srcs)
  {
    hide TakenOver;
    FoldIsMergeExactly(srcs);
  }

  /** Without it they differ: source 1 prunes below "a" and would cut source 0's "a.b", but
      source 2 takes "a" over without pruning, and the merge keeps "a.b". */
  lemma {:induction false} HiddenCut(a: Byte, b: Byte, x: Action, y: Action, z: Action)
    requires a != DOT && b != DOT
    ensures var srcs := [RunSource([Record([a, DOT, b], MatchPrefix)], x, false),
                         RunSource([Record([a], MatchPrefix)], y, true),
                         RunSource([Record([a], MatchPrefix)], z, false)];
            SortedRuns(srcs) && Survives(srcs, [a, DOT, b]) && [a, DOT, b] !in Fold(srcs, 3)
  {
    var k := [a, DOT, b];
    var srcs := [RunSource([Record(k, MatchPrefix)], x, false),
                 RunSource([Record([a], MatchPrefix)], y, true),
                 RunSource([Record([a], MatchPrefix)], z, false)];
    assert srcs[0].recs[0].key == k && srcs[2].recs[0].key == [a] && srcs[1].recs[0].key == [a];
    WinnerUnique(srcs, k, 0);
    WinnerUnique(srcs, [a], 2);
    forall p
      ensures !Overrides(srcs, p, k)
    {
      assert LabelCovers(p, k) ==> |p| == 1 && p == [k[0]];
    }
    FoldHolds(srcs, 3, k);
    assert Cuts(srcs[1].recs, k) by {
      assert HasKey(srcs[1].recs, [a]) && LabelCovers([a], k);
    }
    assert CutLater(srcs, 3, k);
  }
}
