// The two compiled indexes of matcher.go and radix.go, built from the same merge: a radix
// tree on the heap and an FST, the latter taken as a finite map from exact keys to numbers.
module Matcher {
  import opened Bytes
  import opened Actions
  import opened Merge
  import opened Lookup
  import opened Radix
  import T = RadixTree
  import C = RadixCanonical
  import Labels

  /** Keys are non-empty and modes are Exact or Prefix, as the parser writes them. */
  ghost predicate StorableRuns(srcs: seq<RunSource>) {
    forall i, r :: 0 <= i < |srcs| && 0 <= r < |srcs[i].recs| ==>
      srcs[i].recs[r].key != [] && srcs[i].recs[r].mode != MatchNone
  }

  ghost predicate StorableMap(m: map<Key, Entry>) {
    forall k :: k in m ==> k != [] && m[k].mode != MatchNone
  }

  lemma {:induction false} MergeMapStorable(srcs: seq<RunSource>, m: map<Key, Entry>)
    requires StorableRuns(srcs) && IsMergeMap(srcs, m)
    ensures StorableMap(m)
  {
    forall k | k in m
      ensures k != [] && m[k].mode != MatchNone
    {
      assert Rightful(srcs, Emitted(k, m[k]));
    }
  }

  // ---------------------------------------------------------------- FST

  const FST_PREFIX_BIT := 1

  function ActionCode(a: Action): nat {
    match a
    case Blackhole => 0
    case Remap => 1
    case Pass => 2
    case NXDomain => 3
  }

  function ActionOf(code: nat): Action
    requires code < 4
  {
    if code == 0 then Blackhole else if code == 1 then Remap else if code == 2 then Pass else NXDomain
  }

  /** The number stored for an entry: the action above the prefix bit. */
  function Encode(e: Entry): nat {
    ActionCode(e.action) * 2 + if e.mode == MatchPrefix then FST_PREFIX_BIT else 0
  }

  ghost predicate Encodes(fst: map<Key, nat>, m: map<Key, Entry>) {
    fst.Keys == m.Keys && forall k :: k in m ==> fst[k] == Encode(m[k])
  }

  /** vellum's builder, which accepts keys in strictly ascending order only. */
  class FstBuilder {
    var fst: map<Key, nat>
    var last: Option<Key>

    constructor ()
      ensures fst == map[] && last == None
    {
      fst := map[];
      last := None;
    }

    method Insert(key: Key, v: nat) returns (ok: bool)
      modifies this
      ensures ok <==> old(last).None? || Less(old(last).value, key)
      ensures ok ==> fst == old(fst)[key := v] && last == Some(key)
      ensures !ok ==> fst == old(fst) && last == old(last)
    {
      ok := last.None? || Less(last.value, key);
      if ok {
        fst := fst[key := v];
        last := Some(key);
      }
    }
  }

  lemma {:induction false} Decodes(fst: map<Key, nat>, m: map<Key, Entry>, k: Key)
    requires Encodes(fst, m) && k in fst
    ensures k in m && fst[k] / 2 < 4
    ensures ActionOf(fst[k] / 2) == m[k].action
    ensures fst[k] % 2 != 0 <==> m[k].mode == MatchPrefix
  {
  }

  /** The numbers themselves: the action's ordinal above one bit for the mode. */
  lemma {:induction false} EncodedNumbers()
    ensures Encode(Entry(Blackhole, MatchExact)) == 0 && Encode(Entry(Blackhole, MatchPrefix)) == 1
    ensures Encode(Entry(Remap, MatchExact)) == 2 && Encode(Entry(Remap, MatchPrefix)) == 3
    ensures Encode(Entry(Pass, MatchExact)) == 4 && Encode(Entry(Pass, MatchPrefix)) == 5
    ensures Encode(Entry(NXDomain, MatchExact)) == 6 && Encode(Entry(NXDomain, MatchPrefix)) == 7
  {
  }

  /** The numbers determine the entries. */
  lemma {:induction false} EncodesUnique(fst: map<Key, nat>, a: map<Key, Entry>, b: map<Key, Entry>)
    requires Encodes(fst, a) && Encodes(fst, b) && StorableMap(a) && StorableMap(b)
    ensures a == b
  {
    hide Encode, ActionOf;
    forall k | k in a
      ensures k in b && a[k] == b[k]
    {
      assert k in fst;
      Decodes(fst, a, k);
      Decodes(fst, b, k);
    }
  }

  /** The most specific entry, found by exact gets at the key and at its label boundaries. */
  method FstLookup(fst: map<Key, nat>, domain: Key, ghost m: map<Key, Entry>) returns (a: Action)
    requires Encodes(fst, m) && StorableMap(m)
    ensures a == Answer(m, Labels.Reverse(domain))
  {
    hide ActionOf, Encode, Labels.Reverse, LongestCover;
    var rev := Labels.ReverseLabels(domain);
    if rev in fst {
      Decodes(fst, m, rev);
      return ActionOf(fst[rev] / 2);
    }
    var i := |rev|;
    while i > 0
      invariant i <= |rev|
      invariant forall j :: i <= j < |rev| ==> !IsCover(m, rev, j)
    {
      i := i - 1;
      if rev[i] == DOT {
        var p := rev[..i];
        if p in fst {
          Decodes(fst, m, p);
          if fst[p] % 2 != 0 {
            LongestCoverUnique(m, rev, i);
            return ActionOf(fst[p] / 2);
          }
        }
      }
    }
    LongestCoverUnique(m, rev, 0);
    return Pass;
  }

  class FstMatcher {
    var fst: map<Key, nat>
    ghost var entries: map<Key, Entry>

    ghost predicate Valid()
      reads this
    {
      Encodes(fst, entries) && StorableMap(entries)
    }

    constructor (fst: map<Key, nat>, ghost entries: map<Key, Entry>)
      requires Encodes(fst, entries) && StorableMap(entries)
      ensures Valid() && this.entries == entries && this.fst == fst
    {
      this.fst := fst;
      this.entries := entries;
    }

    method Lookup(domain: Key) returns (a: Action)
      requires Valid()
      ensures a == Answer(entries, Labels.Reverse(domain))
    {
      a := FstLookup(fst, domain, entries);
    }
  }

  lemma {:induction false} MapOfSize(out: seq<Emitted>)
    requires AscendingOut(out)
    ensures |MapOf(out)| == |out|
    decreases |out|
  {
    if out != [] {
      var n := |out| - 1;
      MapOfSize(out[..n]);
      MapOfKeys(out[..n], out[n].key);
      forall i | 0 <= i < n
        ensures out[..n][i].key != out[n].key
      {
        LessAsymmetric(out[i].key, out[n].key);
      }
    }
  }

  /** The emit callback of BuildFST over all emissions: the builder refuses none of them. */
  method InsertAllFst(out: seq<Emitted>) returns (fst: map<Key, nat>, ok: bool)
    requires AscendingOut(out)
    ensures ok && Encodes(fst, MapOf(out))
  {
    var b := new FstBuilder();
    ok := true;
    for i := 0 to |out|
      invariant ok && Encodes(b.fst, MapOf(out[..i]))
      invariant b.last == if i == 0 then None else Some(out[i - 1].key)
    {
      var e := out[i];
      var v := ActionCode(e.entry.action) * 2;
      if e.entry.mode == MatchPrefix {
        v := v + FST_PREFIX_BIT;
      }
      assert out[..i + 1][..i] == out[..i];
      assert MapOf(out[..i + 1]) == MapOf(out[..i])[out[i].key := out[i].entry];
      hide MapOf;
      var accepted := b.Insert(e.key, v);
      ok := ok && accepted;
    }
    assert out[..|out|] == out;
    fst := b.fst;
  }

  /** Compiles the runs into an FST. */
  method BuildFST(srcs: seq<RunSource>) returns (m: FstMatcher, n: nat, ok: bool)
    requires SortedRuns(srcs) && StorableRuns(srcs)
    ensures ok && m.Valid() && IsMergeMap(srcs, m.entries) && n == |m.entries|
    ensures fresh(m)
  {
    var out;
    out, n := MergeResolve(srcs);
    MergedMap(srcs, out);
    MergeMapStorable(srcs, MapOf(out));
    MapOfSize(out);
    var fst;
    fst, ok := InsertAllFst(out);
    m := new FstMatcher(fst, MapOf(out));
  }

  // ---------------------------------------------------------------- radix tree

  ghost function PutsOf(out: seq<Emitted>): (puts: seq<C.Put>) {
    seq(|out|, i requires 0 <= i < |out| => C.Put(out[i].key, out[i].entry))
  }

  ghost predicate Represents(t: T.Tree, m: map<Key, Entry>) {
    T.Shape(t) && forall q :: T.At(t, q) == if q in m then Some(m[q]) else None
  }

  lemma {:induction false} LastPutIsEntry(out: seq<Emitted>, q: Key)
    ensures C.LastPut(PutsOf(out), q) == if q in MapOf(out) then Some(MapOf(out)[q]) else None
    decreases |out|
  {
    if out != [] {
      var n := |out| - 1;
      assert PutsOf(out)[..n] == PutsOf(out[..n]);
      LastPutIsEntry(out[..n], q);
    }
  }

  lemma {:induction false} PutsRepresent(out: seq<Emitted>)
    requires C.Storable(PutsOf(out))
    ensures Represents(C.InsertAll(T.EMPTY, PutsOf(out)), MapOf(out))
  {
    forall q
      ensures T.At(C.InsertAll(T.EMPTY, PutsOf(out)), q) == if q in MapOf(out) then Some(MapOf(out)[q]) else None
    {
      C.InsertAllHolds(PutsOf(out), q);
      LastPutIsEntry(out, q);
    }
  }

  /** Search in a tree that represents m gives m's answer. */
  lemma {:induction false} SearchAnswers(t: T.Tree, m: map<Key, Entry>, s: Key)
    requires Represents(t, m) && s != []
    ensures Answer(m, s) == match T.Get(t, s, None) case Some(a) => a case None => Pass
  {
    var i := LongestCover(m, s, |s|);
    hide T.Shape, T.At, T.Get;
    forall j | 0 <= j < |s|
      ensures T.CoversIn(t, s, j) == IsCover(m, s, j)
    {
    }
    T.GetIsMostSpecific(t, s, None, i);
  }

  class RadixMatcher {
    var root: RadixNode
    ghost var entries: map<Key, Entry>

    ghost predicate Valid()
      reads this, root, root.Repr
    {
      root.Valid() && Represents(root.tree, entries) && StorableMap(entries)
    }

    constructor (root: RadixNode, ghost entries: map<Key, Entry>)
      requires root.Valid() && Represents(root.tree, entries) && StorableMap(entries)
      ensures Valid() && this.root == root && this.entries == entries
    {
      this.root := root;
      this.entries := entries;
    }

    method Lookup(domain: Key) returns (a: Action)
      requires Valid()
      ensures a == Answer(entries, Labels.Reverse(domain))
    {
      if domain == [] {
        Labels.ReverseEmpty();
        return Pass;
      }
      var rev := Labels.ReverseLabels(domain);
      var r := root.Get(rev, None);
      if rev == [] {
        assert T.At(root.tree, []) == None;
      } else {
        SearchAnswers(root.tree, entries, rev);
      }
      return match r case Some(x) => x case None => Pass;
    }
  }

  /** An empty key is not inserted. */
  method InsertReversed(root: RadixNode, revKey: Key, val: Action, mode: MatchMode)
    requires root.Valid()
    modifies root.Repr
    ensures root.Valid() && fresh(root.Repr - old(root.Repr))
    ensures root.tree == if revKey == [] then old(root.tree) else T.Insert(old(root.tree), revKey, Entry(val, mode))
  {
    if |revKey| == 0 {
      return;
    }
    root.Insert(revKey, val, mode);
  }

  /** The emit callback of BuildRadix over all emissions. */
  method InsertAllRadix(out: seq<Emitted>) returns (root: RadixNode)
    requires C.Storable(PutsOf(out))
    ensures root.Valid() && fresh(root.Repr)
    ensures root.tree == C.InsertAll(T.EMPTY, PutsOf(out))
  {
    root := new RadixNode.Leaf([], MatchNone, ZERO);
    ghost var puts := PutsOf(out);
    for i := 0 to |out|
      invariant root.Valid() && fresh(root.Repr)
      invariant root.tree == C.InsertAll(T.EMPTY, puts[..i])
    {
      assert puts[i].key != [];
      InsertReversed(root, out[i].key, out[i].entry.action, out[i].entry.mode);
      InsertAllStep(puts, i);
    }
    assert puts[..|out|] == puts;
  }

  lemma {:induction false} InsertAllStep(puts: seq<C.Put>, i: nat)
    requires i < |puts|
    ensures C.InsertAll(T.EMPTY, puts[..i + 1])
         == T.Insert(C.InsertAll(T.EMPTY, puts[..i]), puts[i].key, puts[i].entry)
  {
    assert puts[..i + 1][..i] == puts[..i];
  }

  /** Compiles the runs into a radix tree, which is the canonical one for its entries. */
  method BuildRadix(srcs: seq<RunSource>) returns (m: RadixMatcher, n: nat)
    requires SortedRuns(srcs) && StorableRuns(srcs)
    ensures m.Valid() && IsMergeMap(srcs, m.entries) && n == |m.entries|
    ensures fresh(m) && fresh(m.root) && fresh(m.root.Repr)
    ensures C.Tidy(m.root.tree) && (n > 0 ==> C.Nodes(m.root.tree) <= 2 * n - 1)
  {
    var out;
    out, n := MergeResolve(srcs);
    MergedMap(srcs, out);
    MergeMapStorable(srcs, MapOf(out));
    MapOfSize(out);
    StorablePuts(srcs, out);
    PutsRepresent(out);
    C.InsertAllTidy(PutsOf(out));
    TreeSize(out);
    hide C.InsertAll, Represents, MapOf, PutsOf, IsMergeMap;
    var root := InsertAllRadix(out);
    m := new RadixMatcher(root, MapOf(out));
  }

  lemma {:induction false} StorablePuts(srcs: seq<RunSource>, out: seq<Emitted>)
    requires StorableRuns(srcs) && IsMerge(srcs, out)
    ensures C.Storable(PutsOf(out))
  {
    forall i | 0 <= i < |out|
      ensures out[i].key != [] && out[i].entry.mode != MatchNone
    {
      assert Rightful(srcs, out[i]);
    }
  }

  lemma {:induction false} TreeSize(out: seq<Emitted>)
    requires AscendingOut(out) && C.Storable(PutsOf(out))
    ensures out != [] ==> C.Nodes(C.InsertAll(T.EMPTY, PutsOf(out))) <= 2 * |out| - 1
  {
    if out != [] {
      C.NodesBoundedByKeys(PutsOf(out));
      KeySetSize(out);
    }
  }

  lemma {:induction false} KeySetSize(out: seq<Emitted>)
    requires AscendingOut(out)
    ensures |C.KeySet(PutsOf(out))| == |out|
  {
    MapOfSize(out);
    forall k
      ensures k in C.KeySet(PutsOf(out)) <==> k in MapOf(out).Keys
    {
      MapOfKeys(out, k);
      if Emits(out, k) {
        var i :| 0 <= i < |out| && out[i].key == k;
        assert PutsOf(out)[i].key == k;
      }
    }
    assert C.KeySet(PutsOf(out)) == MapOf(out).Keys;
  }

  // ---------------------------------------------------------------- the two backends agree

  /** Both indexes answer every query, well-formed or not, alike: the action of the most
      specific surviving entry. */
  method BothBackends(srcs: seq<RunSource>, domain: Key) returns (viaRadix: Action, viaFst: Action)
    requires SortedRuns(srcs) && StorableRuns(srcs)
    ensures viaRadix == viaFst
    ensures IsMergeMap(srcs, MergeMap(srcs)) && viaRadix == Answer(MergeMap(srcs), Labels.Reverse(domain))
  {
    var rx, _ := BuildRadix(srcs);
    var fst, _, _ := BuildFST(srcs);
    viaRadix := rx.Lookup(domain);
    viaFst := fst.Lookup(domain);
    MergeMapHolds(srcs);
    MergeMapUnique(srcs, MergeMap(srcs), rx.entries);
    MergeMapUnique(srcs, MergeMap(srcs), fst.entries);
  }
}
