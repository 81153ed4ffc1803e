// The radix tree is canonical: it is determined by the entries it holds, whatever the
// order in which they were inserted, and it spends at most 2 * keys - 1 nodes on them.
module RadixCanonical {
  import opened Bytes
  import opened Actions
  import opened RadixTree

  /** A node below the root either holds an entry or is a real branching point. */
  ghost predicate Earned(kid: Tree) {
    kid.mode != MatchNone || |kid.kids| >= 2
  }

  ghost predicate Tidy(t: Tree) {
    && (t.mode == MatchNone ==> t.value == ZERO)
    && (forall i :: 0 <= i < |t.kids| ==> Earned(t.kids[i]) && Tidy(t.kids[i]))
  }

  // ---------------------------------------------------------------- insertion keeps trees tidy

  lemma {:induction false} AddLeafStaysTidy(t: Tree, s: Key, e: Entry)
    requires Shape(t) && Tidy(t) && s != [] && !Found(t.kids, s[0]) && e.mode != MatchNone
    ensures Tidy(AddLeaf(t, s, e)) && |AddLeaf(t, s, e).kids| == |t.kids| + 1
  {
    var i := Slot(t.kids, s[0]);
    hide Shape;
    var leaf := Node(s, [], e.mode, e.action);
    var kids' := t.kids[..i] + [leaf] + t.kids[i..];
    assert Tidy(leaf) && Earned(leaf);
    forall j | 0 <= j < |kids'|
      ensures Earned(kids'[j]) && Tidy(kids'[j])
    {
      assert kids'[j] == if j < i then t.kids[j] else if j == i then leaf else t.kids[j - 1];
    }
  }

  lemma {:induction false} CutStaysTidy(ch: Tree, n: nat)
    requires Shape(ch) && Tidy(ch) && Earned(ch) && 0 < n < |ch.prefix|
    ensures Tidy(Cut(ch, n)) && |Cut(ch, n).kids| == 1
  {
    var low := Cut(ch, n).kids[0];
    assert Tidy(low) && Earned(low);
  }

  lemma {:induction false} InsertStaysTidy(t: Tree, s: Key, e: Entry)
    requires Shape(t) && Tidy(t) && e.mode != MatchNone
    ensures Tidy(Insert(t, s, e))
    ensures |Insert(t, s, e).kids| >= |t.kids|
    ensures s != [] ==> Insert(t, s, e).mode == t.mode
    ensures s != [] && !Found(t.kids, s[0]) ==> |Insert(t, s, e).kids| == |t.kids| + 1
    decreases |s|, 1
  {
    if s != [] {
      if Found(t.kids, s[0]) {
        var i := Slot(t.kids, s[0]);
        InsertKidStaysTidy(t.kids[i], s, e);
      } else {
        AddLeafStaysTidy(t, s, e);
      }
    }
  }

  lemma {:induction false} InsertKidStaysTidy(ch: Tree, s: Key, e: Entry)
    requires Shape(ch) && Tidy(ch) && Earned(ch) && e.mode != MatchNone
    requires ch.prefix != [] && s != [] && ch.prefix[0] == s[0]
    ensures Tidy(InsertKid(ch, s, e)) && Earned(InsertKid(ch, s, e))
    decreases |s|, 0
  {
    var cl := CommonPrefixLen(ch.prefix, s);
    assert 0 < cl;
    if cl == |ch.prefix| {
      InsertStaysTidy(ch, s[cl..], e);
    } else {
      CutStaysTidy(ch, cl);
      var up := Cut(ch, cl);
      if cl < |s| {
        assert up.kids[0].prefix[0] == ch.prefix[cl];
        assert s[cl..][0] == s[cl];
        assert !Found(up.kids, s[cl]);
        InsertStaysTidy(up, s[cl..], e);
      }
    }
  }

  // ---------------------------------------------------------------- the entries determine the tree

  ghost predicate SameEntries(a: Tree, b: Tree)
    requires Shape(a) && Shape(b)
  {
    forall q :: At(a, q) == At(b, q)
  }

  /** A key held below an earned node. */
  ghost function SomeKey(t: Tree): (q: Key)
    requires Shape(t) && Tidy(t) && (Earned(t) || t.kids != [])
    ensures At(t, q).Some?
    decreases t
  {
    if t.mode != MatchNone then []
    else
      AtBelowKid(t, 0, SomeKey(t.kids[0]));
      t.kids[0].prefix + SomeKey(t.kids[0])
  }

  /** A key held below child i. */
  ghost function SomeKeyBelow(t: Tree, i: nat): (q: Key)
    requires Shape(t) && Tidy(t) && i < |t.kids|
    ensures At(t, q).Some? && t.kids[i].prefix <= q
  {
    AtBelowKid(t, i, SomeKey(t.kids[i]));
    t.kids[i].prefix + SomeKey(t.kids[i])
  }

  lemma {:induction false} SameHeads(a: Tree, b: Tree, c: Byte)
    requires Shape(a) && Shape(b) && Tidy(a) && SameEntries(a, b)
    ensures Found(a.kids, c) ==> Found(b.kids, c)
  {
    if Found(a.kids, c) {
      var q := SomeKeyBelow(a, Slot(a.kids, c));
      assert At(b, q).Some?;
      assert q[0] == c;
    }
  }

  /** Sorted children with the same set of first bytes have the same first bytes in order. */
  lemma {:induction false} SameHeadAt(a: Tree, b: Tree, i: nat)
    requires Shape(a) && Shape(b)
    requires forall c :: Found(a.kids, c) == Found(b.kids, c)
    ensures i < |a.kids| ==> i < |b.kids| && a.kids[i].prefix[0] == b.kids[i].prefix[0]
    ensures i < |b.kids| ==> i < |a.kids|
    decreases i
  {
    KidsKeyed(a);
    KidsKeyed(b);
    hide Shape, Slot, Found;
    if 0 < i {
      SameHeadAt(a, b, i - 1);
    }
    if i < |a.kids| {
      HeadFound(a, i);
      SameHeadStep(a, b, i);
    }
    if i < |b.kids| {
      HeadFound(b, i);
      SameHeadStep(b, a, i);
    }
  }

  lemma {:induction false} KidsKeyed(t: Tree)
    requires Shape(t)
    ensures Keyed(t.kids)
  {
  }

  lemma {:induction false} HeadFound(t: Tree, i: nat)
    requires Shape(t) && i < |t.kids|
    ensures Slot(t.kids, t.kids[i].prefix[0]) == i && Found(t.kids, t.kids[i].prefix[0])
  {
    SlotUnique(t.kids, t.kids[i].prefix[0], i);
  }

  lemma {:induction false} SameHeadStep(a: Tree, b: Tree, i: nat)
    requires Shape(a) && Shape(b) && i < |a.kids|
    requires Found(b.kids, a.kids[i].prefix[0])
    requires 0 < i ==> i - 1 < |b.kids| && a.kids[i - 1].prefix[0] == b.kids[i - 1].prefix[0]
    ensures i < |b.kids| && b.kids[i].prefix[0] <= a.kids[i].prefix[0]
  {
    var c := a.kids[i].prefix[0];
    assert 0 < i ==> a.kids[i - 1].prefix[0] < c;
    HeadsBelow(b, i, c);
    SlotAtLeast(b.kids, c, i);
    hide Shape;
    assert i < Slot(b.kids, c) ==> b.kids[i].prefix[0] < c;
  }

  lemma {:induction false} HeadsBelow(t: Tree, i: nat, c: Byte)
    requires Shape(t) && i <= |t.kids|
    requires 0 < i ==> t.kids[i - 1].prefix[0] < c
    ensures forall j :: 0 <= j < i ==> t.kids[j].prefix[0] < c
  {
    forall j | 0 <= j < i
      ensures t.kids[j].prefix[0] < c
    {
      assert j < i - 1 ==> t.kids[j].prefix[0] < t.kids[i - 1].prefix[0];
    }
  }

  ghost predicate SameBelowKids(ka: Tree, kb: Tree)
    requires Shape(ka) && Shape(kb) && ka.prefix != [] && kb.prefix != []
  {
    forall q :: AtKid(ka, q) == AtKid(kb, q)
  }

  lemma {:induction false} KidsSame(a: Tree, b: Tree, i: nat)
    requires Shape(a) && Shape(b) && SameEntries(a, b)
    requires i < |a.kids| && i < |b.kids| && a.kids[i].prefix[0] == b.kids[i].prefix[0]
    ensures SameBelowKids(a.kids[i], b.kids[i])
  {
    HeadFound(a, i);
    HeadFound(b, i);
    forall q
      ensures AtKid(a.kids[i], q) == AtKid(b.kids[i], q)
    {
      if q != [] && q[0] == a.kids[i].prefix[0] {
        assert At(a, q) == At(b, q);
        assert AtKid(a.kids[i], q) == At(a, q);
        assert AtKid(b.kids[i], q) == At(b, q);
      }
    }
  }

  /** An earned node's prefix is the longest one shared by everything below it. */
  lemma {:induction false} PrefixNotShorter(ka: Tree, kb: Tree)
    requires Shape(ka) && Shape(kb) && ka.prefix != [] && kb.prefix != []
    requires Tidy(ka) && Earned(ka) && SameBelowKids(ka, kb)
    ensures |kb.prefix| <= |ka.prefix|
    ensures kb.prefix <= ka.prefix
  {
    if ka.mode != MatchNone {
      SharedPrefix(ka, kb, []);
    } else {
      var q0, q1 := SomeKeyBelow(ka, 0), SomeKeyBelow(ka, 1);
      SharedPrefix(ka, kb, q0);
      SharedPrefix(ka, kb, q1);
      assert ka.kids[0].prefix[0] < ka.kids[1].prefix[0];
      IndexOfConcat(ka.prefix, q0, 0);
      IndexOfConcat(ka.prefix, q1, 0);
      assert |kb.prefix| <= |ka.prefix|;
      assert kb.prefix == (ka.prefix + q0)[..|kb.prefix|] == ka.prefix[..|kb.prefix|];
    }
  }

  lemma {:induction false} SharedPrefix(ka: Tree, kb: Tree, q: Key)
    requires Shape(ka) && Shape(kb) && ka.prefix != [] && kb.prefix != []
    requires SameBelowKids(ka, kb) && At(ka, q).Some?
    ensures kb.prefix <= ka.prefix + q
    ensures q == [] ==> kb.prefix <= ka.prefix
  {
    var s := ka.prefix + q;
    assert s[|ka.prefix|..] == q;
    assert AtKid(ka, s) == At(ka, q);
    assert AtKid(kb, s).Some?;
    assert q == [] ==> s == ka.prefix;
  }

  lemma {:induction false} SameBelowKidsSplit(ka: Tree, kb: Tree)
    requires Shape(ka) && Shape(kb) && ka.prefix == kb.prefix != []
    requires SameBelowKids(ka, kb)
    ensures SameEntries(ka, kb)
  {
    forall q
      ensures At(ka, q) == At(kb, q)
    {
      var s := ka.prefix + q;
      assert s[|ka.prefix|..] == q;
      assert AtKid(ka, s) == AtKid(kb, s);
    }
  }

  /** Tidy trees that hold the same entries are the same tree, apart from the prefix
      of the topmost node, which plays no part in what it holds. */
  lemma {:induction false} EntriesDetermineTree(a: Tree, b: Tree)
    requires Shape(a) && Shape(b) && Tidy(a) && Tidy(b) && SameEntries(a, b)
    ensures a.kids == b.kids && a.mode == b.mode && a.value == b.value
    decreases a
  {
    assert At(a, []) == At(b, []);
    forall c: Byte
      ensures Found(a.kids, c) == Found(b.kids, c)
    {
      SameHeads(a, b, c);
      SameHeads(b, a, c);
    }
    SameHeadAt(a, b, |a.kids|);
    SameHeadAt(a, b, |b.kids|);
    forall i | 0 <= i < |a.kids|
      ensures a.kids[i] == b.kids[i]
    {
      SameHeadAt(a, b, i);
      SameKid(a, b, i);
    }
  }

  lemma {:induction false} SameKid(a: Tree, b: Tree, i: nat)
    requires Shape(a) && Shape(b) && Tidy(a) && Tidy(b) && SameEntries(a, b)
    requires i < |a.kids| && i < |b.kids| && a.kids[i].prefix[0] == b.kids[i].prefix[0]
    ensures a.kids[i] == b.kids[i]
    decreases a, 0
  {
    var ka, kb := a.kids[i], b.kids[i];
    KidsSame(a, b, i);
    assert SameBelowKids(kb, ka);
    PrefixNotShorter(ka, kb);
    PrefixNotShorter(kb, ka);
    SameBelowKidsSplit(ka, kb);
    EntriesDetermineTree(ka, kb);
  }

  // ---------------------------------------------------------------- any order of insertion

  datatype Put = Put(key: Key, entry: Entry)

  ghost function InsertAll(t: Tree, puts: seq<Put>): (r: Tree)
    requires Shape(t)
    ensures Shape(r) && r.prefix == t.prefix
    decreases |puts|
  {
    if puts == [] then t
    else Insert(InsertAll(t, puts[..|puts| - 1]), puts[|puts| - 1].key, puts[|puts| - 1].entry)
  }

  ghost predicate Storable(puts: seq<Put>) {
    forall i :: 0 <= i < |puts| ==> puts[i].key != [] && puts[i].entry.mode != MatchNone
  }

  /** What the last insertion of q put there. */
  ghost function LastPut(puts: seq<Put>, q: Key): Option<Entry> {
    if puts == [] then None
    else if puts[|puts| - 1].key == q then Some(puts[|puts| - 1].entry)
    else LastPut(puts[..|puts| - 1], q)
  }

  lemma {:induction false} InsertAllHolds(puts: seq<Put>, q: Key)
    requires Storable(puts)
    ensures At(InsertAll(EMPTY, puts), q) == LastPut(puts, q)
    decreases |puts|
  {
    if puts != [] {
      var front := puts[..|puts| - 1];
      var put := puts[|puts| - 1];
      InsertAllHolds(front, q);
      InsertIsUpdate(InsertAll(EMPTY, front), put.key, put.entry, q);
    }
  }

  lemma {:induction false} InsertAllTidy(puts: seq<Put>)
    requires Storable(puts)
    ensures Tidy(InsertAll(EMPTY, puts)) && InsertAll(EMPTY, puts).mode == MatchNone
    decreases |puts|
  {
    if puts != [] {
      var put := puts[|puts| - 1];
      assert put.key != [] && put.entry.mode != MatchNone;
      InsertAllTidy(puts[..|puts| - 1]);
      InsertStaysTidy(InsertAll(EMPTY, puts[..|puts| - 1]), put.key, put.entry);
    }
  }

  /** Two insertion sequences that leave the same entry at every key build the same tree. */
  lemma {:induction false} InsertionOrderIrrelevant(puts: seq<Put>, puts': seq<Put>)
    requires Storable(puts) && Storable(puts')
    requires forall q :: LastPut(puts, q) == LastPut(puts', q)
    ensures InsertAll(EMPTY, puts) == InsertAll(EMPTY, puts')
  {
    var a, b := InsertAll(EMPTY, puts), InsertAll(EMPTY, puts');
    InsertAllTidy(puts);
    InsertAllTidy(puts');
    forall q
      ensures At(a, q) == At(b, q)
    {
      InsertAllHolds(puts, q);
      InsertAllHolds(puts', q);
    }
    EntriesDetermineTree(a, b);
  }

  ghost predicate DistinctKeys(puts: seq<Put>) {
    forall i, j :: 0 <= i < j < |puts| ==> puts[i].key != puts[j].key
  }

  lemma {:induction false} LastPutOfDistinct(puts: seq<Put>, q: Key)
    requires DistinctKeys(puts)
    ensures LastPut(puts, q).Some? ==> Put(q, LastPut(puts, q).value) in puts
    ensures forall i :: 0 <= i < |puts| && puts[i].key == q ==> LastPut(puts, q) == Some(puts[i].entry)
    decreases |puts|
  {
    if puts != [] {
      LastPutOfDistinct(puts[..|puts| - 1], q);
    }
  }

  /** In particular every permutation of distinct keys builds the same tree. */
  lemma {:induction false} PermutationsBuildSameTree(puts: seq<Put>, puts': seq<Put>)
    requires Storable(puts) && DistinctKeys(puts) && DistinctKeys(puts')
    requires multiset(puts) == multiset(puts')
    ensures InsertAll(EMPTY, puts) == InsertAll(EMPTY, puts')
  {
    SameMembers(puts, puts');
    SameMembers(puts', puts);
    forall i | 0 <= i < |puts'|
      ensures puts'[i].key != [] && puts'[i].entry.mode != MatchNone
    {
      assert puts'[i] in puts;
    }
    forall q
      ensures LastPut(puts, q) == LastPut(puts', q)
    {
      LastPutOfDistinct(puts, q);
      LastPutOfDistinct(puts', q);
    }
    InsertionOrderIrrelevant(puts, puts');
  }

  lemma {:induction false} SameMembers(puts: seq<Put>, puts': seq<Put>)
    requires multiset(puts) == multiset(puts')
    ensures forall p :: p in puts ==> p in puts'
  {
    forall p | p in puts
      ensures p in puts'
    {
      assert p in multiset(puts);
    }
  }

  // ---------------------------------------------------------------- how many nodes the entries cost

  ghost function KeysHere(t: Tree): nat {
    if t.mode == MatchNone then 0 else 1
  }

  /** Entries held by the tree. */
  ghost function Keys(t: Tree): nat {
    KeysHere(t) + KeysOf(t, |t.kids|)
  }

  ghost function KeysOf(t: Tree, n: nat): nat
    requires n <= |t.kids|
    decreases t, 0, n
  {
    if n == 0 then 0 else KeysOf(t, n - 1) + Keys(t.kids[n - 1])
  }

  /** Nodes below t. */
  ghost function Nodes(t: Tree): nat {
    NodesOf(t, |t.kids|)
  }

  ghost function NodesOf(t: Tree, n: nat): nat
    requires n <= |t.kids|
    decreases t, 0, n
  {
    if n == 0 then 0 else NodesOf(t, n - 1) + 1 + Nodes(t.kids[n - 1])
  }

  /** A tidy tree with k entries has at most 2k - 1 nodes below its root. */
  lemma {:induction false} NodesBounded(t: Tree)
    requires Tidy(t) && t.mode == MatchNone
    ensures if t.kids == [] then Nodes(t) == 0 else Nodes(t) <= 2 * Keys(t) - 1
  {
    NodesOfBounded(t, |t.kids|);
  }

  lemma {:induction false} NodesOfBounded(t: Tree, n: nat)
    requires Tidy(t) && n <= |t.kids|
    ensures NodesOf(t, n) + n <= 2 * KeysOf(t, n)
    decreases t, 0, n
  {
    if 0 < n {
      NodesOfBounded(t, n - 1);
      var kid := t.kids[n - 1];
      NodesOfBounded(kid, |kid.kids|);
    }
  }

  lemma {:induction false} KeysOfReplaced(t: Tree, t': Tree, i: nat, n: nat)
    requires i < |t.kids| && n <= |t.kids|
    requires |t'.kids| == |t.kids| && forall j :: 0 <= j < |t.kids| && j != i ==> t'.kids[j] == t.kids[j]
    ensures KeysOf(t', n) == KeysOf(t, n) + if i < n then Keys(t'.kids[i]) - Keys(t.kids[i]) else 0
    decreases n
  {
    if 0 < n {
      KeysOfReplaced(t, t', i, n - 1);
    }
  }

  lemma {:induction false} KeysOfInserted(t: Tree, t': Tree, i: nat, n: nat)
    requires i <= |t.kids| && n <= |t'.kids|
    requires |t'.kids| == |t.kids| + 1
    requires forall j {:trigger t'.kids[j]} :: 0 <= j < |t'.kids| && j != i ==>
               t'.kids[j] == t.kids[if j < i then j else j - 1]
    ensures KeysOf(t', n) == if i < n then KeysOf(t, n - 1) + Keys(t'.kids[i]) else KeysOf(t, n)
    decreases n
  {
    if 0 < n {
      KeysOfInserted(t, t', i, n - 1);
    }
  }

  lemma {:induction false} CutKeepsKeys(ch: Tree, n: nat)
    requires Shape(ch) && 0 < n < |ch.prefix|
    ensures Keys(Cut(ch, n)) == Keys(ch)
  {
    var up := Cut(ch, n);
    var low := up.kids[0];
    assert KeysOf(up, 1) == KeysOf(up, 0) + Keys(low);
    SameKeysOf(low, ch, |ch.kids|);
  }

  lemma {:induction false} SameKeysOf(a: Tree, b: Tree, n: nat)
    requires a.kids == b.kids && n <= |a.kids|
    ensures KeysOf(a, n) == KeysOf(b, n)
    decreases n
  {
    if 0 < n {
      SameKeysOf(a, b, n - 1);
    }
  }

  lemma {:induction false} AddLeafCounts(t: Tree, s: Key, e: Entry)
    requires Shape(t) && s != [] && !Found(t.kids, s[0]) && e.mode != MatchNone
    ensures Keys(AddLeaf(t, s, e)) == Keys(t) + 1
  {
    hide AddLeaf, Slot, Found, Keys, KeysOf;
    var r := AddLeaf(t, s, e);
    AddLeafKids(t, s, e);
    LeafKeys(r.kids[Slot(t.kids, s[0])]);
    KeysOfInserted(t, r, Slot(t.kids, s[0]), |r.kids|);
    KeysSplit(t);
    KeysSplit(r);
  }

  lemma {:induction false} LeafKeys(t: Tree)
    requires t.kids == [] && t.mode != MatchNone
    ensures Keys(t) == 1
  {
  }

  lemma {:induction false} KeysSplit(t: Tree)
    ensures Keys(t) == KeysOf(t, |t.kids|) + if t.mode == MatchNone then 0 else 1
  {
  }

  /** Insertion adds one entry, unless it overwrites one. */
  lemma {:induction false} InsertCounts(t: Tree, s: Key, e: Entry)
    requires Shape(t) && e.mode != MatchNone
    ensures Keys(Insert(t, s, e)) == Keys(t) + if At(t, s).None? then 1 else 0
    decreases |s|, 1
  {
    var r := Insert(t, s, e);
    if s == [] {
      SameKeysOf(t, r, |t.kids|);
    } else {
      var i := Slot(t.kids, s[0]);
      if Found(t.kids, s[0]) {
        InsertKidCounts(t.kids[i], s, e);
        KeysOfReplaced(t, r, i, |t.kids|);
      } else {
        AddLeafCounts(t, s, e);
      }
    }
  }

  lemma {:induction false} InsertKidCounts(ch: Tree, s: Key, e: Entry)
    requires Shape(ch) && ch.prefix != [] && s != [] && ch.prefix[0] == s[0] && e.mode != MatchNone
    ensures Keys(InsertKid(ch, s, e)) == Keys(ch) + if AtKid(ch, s).None? then 1 else 0
    decreases |s|, 0
  {
    var cl := CommonPrefixLen(ch.prefix, s);
    assert 0 < cl;
    if cl == |ch.prefix| {
      InsertCounts(ch, s[cl..], e);
    } else {
      CutKeepsKeys(ch, cl);
      CutKeepsEntries(ch, cl, s);
      InsertCounts(Cut(ch, cl), s[cl..], e);
    }
  }

  ghost function KeySet(puts: seq<Put>): set<Key> {
    set p | p in puts :: p.key
  }

  /** The tree built from a list of insertions holds as many entries as the list has keys. */
  lemma {:induction false} KeysAfterInsertAll(puts: seq<Put>)
    requires Storable(puts)
    ensures Keys(InsertAll(EMPTY, puts)) == |KeySet(puts)|
    decreases |puts|
  {
    if puts != [] {
      var front, put := puts[..|puts| - 1], puts[|puts| - 1];
      assert puts == front + [put];
      KeysAfterInsertAll(front);
      InsertAllHolds(front, put.key);
      InsertCounts(InsertAll(EMPTY, front), put.key, put.entry);
      LastPutSome(front, put.key);
      assert KeySet(puts) == KeySet(front) + {put.key};
    } else {
      assert KeySet(puts) == {};
    }
  }

  lemma {:induction false} LastPutSome(puts: seq<Put>, q: Key)
    ensures LastPut(puts, q).Some? <==> q in KeySet(puts)
    decreases |puts|
  {
    if puts != [] {
      var front, put := puts[..|puts| - 1], puts[|puts| - 1];
      assert puts == front + [put];
      LastPutSome(front, q);
      assert KeySet(puts) == KeySet(front) + {put.key};
    }
  }

  /** k distinct keys cost at most 2k - 1 nodes besides the root. */
  lemma {:induction false} NodesBoundedByKeys(puts: seq<Put>)
    requires Storable(puts) && puts != []
    ensures Nodes(InsertAll(EMPTY, puts)) <= 2 * |KeySet(puts)| - 1
  {
    InsertAllTidy(puts);
    KeysAfterInsertAll(puts);
    NodesBounded(InsertAll(EMPTY, puts));
    assert puts[0].key in KeySet(puts);
    assert Keys(InsertAll(EMPTY, puts)) > 0;
  }
}
