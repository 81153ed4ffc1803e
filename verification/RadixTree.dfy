// The path-compressed radix tree as a value: what the heap nodes of Radix.dfy mean,
// and what insertion and search do to that meaning.
module RadixTree {
  import opened Bytes
  import opened Actions

  datatype Tree = Node(prefix: Key, kids: seq<Tree>, mode: MatchMode, value: Action)

  const EMPTY := Node([], [], MatchNone, ZERO)

  /** Children have non-empty prefixes and are strictly sorted by first byte. */
  ghost predicate Shape(t: Tree) {
    && (forall i :: 0 <= i < |t.kids| ==> t.kids[i].prefix != [] && Shape(t.kids[i]))
    && (forall i, j :: 0 <= i < j < |t.kids| ==> t.kids[i].prefix[0] < t.kids[j].prefix[0])
  }

  ghost predicate Keyed(kids: seq<Tree>) {
    forall i :: 0 <= i < |kids| ==> kids[i].prefix != []
  }

  /** Where a child whose prefix starts with c is, or would have to be inserted. */
  ghost function Slot(kids: seq<Tree>, c: Byte): (r: nat)
    requires Keyed(kids)
    ensures r <= |kids|
    ensures forall j :: 0 <= j < r ==> kids[j].prefix[0] < c
    ensures r < |kids| ==> c <= kids[r].prefix[0]
  {
    if kids == [] || c <= kids[0].prefix[0] then 0 else 1 + Slot(kids[1..], c)
  }

  lemma {:induction false} SlotUnique(kids: seq<Tree>, c: Byte, r: nat)
    requires Keyed(kids)
    requires r <= |kids|
    requires forall j :: 0 <= j < r ==> kids[j].prefix[0] < c
    requires r < |kids| ==> c <= kids[r].prefix[0]
    ensures r == Slot(kids, c)
  {
    var s := Slot(kids, c);
  }

  lemma {:induction false} SlotAtLeast(kids: seq<Tree>, d: Byte, i: nat)
    requires Keyed(kids) && i <= |kids|
    requires forall j :: 0 <= j < i ==> kids[j].prefix[0] < d
    ensures i <= Slot(kids, d)
  {
  }

  lemma {:induction false} SlotAtMost(kids: seq<Tree>, d: Byte, i: nat)
    requires Keyed(kids) && i <= |kids|
    requires i < |kids| ==> d <= kids[i].prefix[0]
    ensures Slot(kids, d) <= i
  {
  }

  ghost predicate Found(kids: seq<Tree>, c: Byte)
    requires Keyed(kids)
  {
    Slot(kids, c) < |kids| && kids[Slot(kids, c)].prefix[0] == c
  }

  ghost function OwnEntry(t: Tree): Option<Entry> {
    if t.mode == MatchNone then None else Some(Entry(t.value, t.mode))
  }

  /** The entry the tree holds for q, where t's own prefix is already consumed. */
  ghost function At(t: Tree, q: Key): Option<Entry>
    requires Shape(t)
    decreases |q|
  {
    if q == [] then OwnEntry(t)
    else if !Found(t.kids, q[0]) then None
    else AtKid(t.kids[Slot(t.kids, q[0])], q)
  }

  /** The entry below a child, whose prefix is still part of q. */
  ghost function AtKid(kid: Tree, q: Key): Option<Entry>
    requires kid.prefix != [] && Shape(kid)
    decreases |q|, 0
  {
    if kid.prefix <= q then At(kid, q[|kid.prefix|..]) else None
  }

  ghost function CommonPrefixLen(a: Key, b: Key): (n: nat)
    ensures n <= |a| && n <= |b|
    ensures a[..n] == b[..n]
    ensures n < |a| && n < |b| ==> a[n] != b[n]
  {
    if a == [] || b == [] || a[0] != b[0] then 0
    else
      assert a == [a[0]] + a[1..] && b == [b[0]] + b[1..];
      1 + CommonPrefixLen(a[1..], b[1..])
  }

  /** ch cut after its first n prefix bytes: the upper half keeps no entry. */
  ghost function Cut(ch: Tree, n: nat): (r: Tree)
    requires Shape(ch) && 0 < n < |ch.prefix|
    ensures Shape(r) && r.prefix == ch.prefix[..n]
  {
    Node(ch.prefix[..n], [Node(ch.prefix[n..], ch.kids, ch.mode, ch.value)], MatchNone, ZERO)
  }

  lemma {:induction false} ShapeWithLeaf(t: Tree, i: nat, leaf: Tree)
    requires Shape(t) && i <= |t.kids| && leaf.prefix != [] && leaf.kids == []
    requires forall j :: 0 <= j < i ==> t.kids[j].prefix[0] < leaf.prefix[0]
    requires forall j :: i <= j < |t.kids| ==> leaf.prefix[0] < t.kids[j].prefix[0]
    ensures Shape(t.(kids := t.kids[..i] + [leaf] + t.kids[i..]))
  {
    var kids' := t.kids[..i] + [leaf] + t.kids[i..];
    var head := (j: int) requires 0 <= j < |kids'| => if j < i then t.kids[j] else if j == i then leaf else t.kids[j - 1];
    forall j | 0 <= j < |kids'|
      ensures kids'[j].prefix != [] && Shape(kids'[j]) && kids'[j].prefix == head(j).prefix
    {
      assert kids'[j] == head(j);
    }
    forall j, k | 0 <= j < k < |kids'|
      ensures kids'[j].prefix[0] < kids'[k].prefix[0]
    {
      assert head(j).prefix[0] < head(k).prefix[0];
    }
  }

  ghost function AddLeaf(t: Tree, s: Key, e: Entry): (r: Tree)
    requires Shape(t) && s != [] && !Found(t.kids, s[0])
    ensures Shape(r) && r.prefix == t.prefix
  {
    var i := Slot(t.kids, s[0]);
    var leaf := Node(s, [], e.mode, e.action);
    SlotSeparates(t, s[0]);
    var kids' := t.kids[..i] + [leaf] + t.kids[i..];
    ShapeWithLeaf(t, i, leaf);
    t.(kids := kids')
  }

  lemma {:induction false} AddLeafKids(t: Tree, s: Key, e: Entry)
    requires Shape(t) && s != [] && !Found(t.kids, s[0])
    ensures var i, r := Slot(t.kids, s[0]), AddLeaf(t, s, e);
            && r.mode == t.mode && |r.kids| == |t.kids| + 1
            && r.kids[i] == Node(s, [], e.mode, e.action)
            && (forall j {:trigger r.kids[j]} :: 0 <= j < |r.kids| && j != i ==>
                  r.kids[j] == t.kids[if j < i then j else j - 1])
  {
    hide Shape, Found, Slot;
  }

  ghost function PutKid(t: Tree, i: nat, kid: Tree): (r: Tree)
    requires Shape(t) && i < |t.kids|
    requires Shape(kid) && kid.prefix != [] && kid.prefix[0] == t.kids[i].prefix[0]
    ensures Shape(r) && r.prefix == t.prefix
  {
    t.(kids := t.kids[i := kid])
  }

  ghost function Insert(t: Tree, s: Key, e: Entry): (r: Tree)
    requires Shape(t)
    ensures Shape(r) && r.prefix == t.prefix
    decreases |s|
  {
    if s == [] then t.(value := e.action, mode := e.mode)
    else
      var i := Slot(t.kids, s[0]);
      if !Found(t.kids, s[0]) then AddLeaf(t, s, e)
      else PutKid(t, i, InsertKid(t.kids[i], s, e))
  }

  ghost function InsertKid(ch: Tree, s: Key, e: Entry): (r: Tree)
    requires Shape(ch) && ch.prefix != [] && s != [] && ch.prefix[0] == s[0]
    ensures Shape(r) && r.prefix != [] && r.prefix[0] == s[0]
    decreases |s|, 0
  {
    var cl := CommonPrefixLen(ch.prefix, s);
    assert 0 < cl;
    if cl == |ch.prefix| then Insert(ch, s[cl..], e)
    else if cl < |s| then Insert(Cut(ch, cl), s[cl..], e)
    else Cut(ch, cl).(value := e.action, mode := e.mode)
  }

  lemma {:induction false} SlotSeparates(t: Tree, c: Byte)
    requires Shape(t)
    ensures forall j :: Slot(t.kids, c) <= j < |t.kids| && !Found(t.kids, c) ==> c < t.kids[j].prefix[0]
    ensures forall j :: Slot(t.kids, c) < j < |t.kids| ==> c < t.kids[j].prefix[0]
  {
  }

  // ---------------------------------------------------------------- insertion is map update

  /** What storing e at a key makes visible there. */
  ghost function Held(e: Entry): Option<Entry> {
    if e.mode == MatchNone then None else Some(e)
  }

  lemma {:induction false} SlotAfterReplace(kids: seq<Tree>, i: nat, kid: Tree, d: Byte)
    requires Keyed(kids) && i < |kids| && kid.prefix != [] && kid.prefix[0] == kids[i].prefix[0]
    ensures Keyed(kids[i := kid]) && Slot(kids[i := kid], d) == Slot(kids, d)
  {
    SlotUnique(kids[i := kid], d, Slot(kids, d));
  }

  lemma {:induction false} SlotAfterInsert(kids: seq<Tree>, i: nat, leaf: Tree, d: Byte)
    requires Keyed(kids) && i <= |kids| && leaf.prefix != []
    requires forall j :: 0 <= j < i ==> kids[j].prefix[0] < leaf.prefix[0]
    requires forall j :: i <= j < |kids| ==> leaf.prefix[0] < kids[j].prefix[0]
    ensures var kids' := kids[..i] + [leaf] + kids[i..];
            && Keyed(kids')
            && Slot(kids', d) == if leaf.prefix[0] < d then Slot(kids, d) + 1 else Slot(kids, d)
  {
    var kids' := kids[..i] + [leaf] + kids[i..];
    var r := Slot(kids, d);
    var r' := if leaf.prefix[0] < d then r + 1 else r;
    if leaf.prefix[0] < d {
      SlotAtLeast(kids, d, i);
    } else {
      SlotAtMost(kids, d, i);
    }
    forall j | 0 <= j < |kids'|
      ensures kids'[j].prefix != [] && (j < r' ==> kids'[j].prefix[0] < d) && (j == r' ==> d <= kids'[j].prefix[0])
    {
      assert kids'[j] == if j < i then kids[j] else if j == i then leaf else kids[j - 1];
    }
    SlotUnique(kids', d, r');
  }

  lemma {:induction false} LeafEntry(leaf: Tree, e: Entry, q: Key)
    requires leaf == Node(leaf.prefix, [], e.mode, e.action) && leaf.prefix != []
    ensures AtKid(leaf, q) == if q == leaf.prefix then Held(e) else None
  {
    if leaf.prefix <= q {
      assert q == leaf.prefix + q[|leaf.prefix|..];
    }
  }

  /** A new leaf changes the tree at its own key and nowhere else. */
  lemma {:induction false} AddLeafIsUpdate(t: Tree, s: Key, e: Entry, q: Key)
    requires Shape(t) && s != [] && !Found(t.kids, s[0])
    ensures At(Insert(t, s, e), q) == if q == s then Held(e) else At(t, q)
  {
    if q != [] {
      var i := Slot(t.kids, s[0]);
      var leaf := Node(s, [], e.mode, e.action);
      var r := Insert(t, s, e);
      SlotSeparates(t, s[0]);
      SlotAfterInsert(t.kids, i, leaf, q[0]);
      assert r.kids == t.kids[..i] + [leaf] + t.kids[i..];
      if q[0] == s[0] {
        assert r.kids[i] == leaf;
        assert At(r, q) == AtKid(leaf, q);
        LeafEntry(leaf, e, q);
      } else {
        OtherKidsKeepSlot(t.kids, i, leaf, q[0]);
      }
    }
  }

  lemma {:induction false} OtherKidsKeepSlot(kids: seq<Tree>, i: nat, leaf: Tree, d: Byte)
    requires Keyed(kids) && i <= |kids| && leaf.prefix != [] && leaf.prefix[0] != d
    requires forall j :: i <= j < |kids| ==> leaf.prefix[0] < kids[j].prefix[0]
    requires forall j :: 0 <= j < i ==> kids[j].prefix[0] < leaf.prefix[0]
    ensures var kids' := kids[..i] + [leaf] + kids[i..];
            && Keyed(kids')
            && Found(kids', d) == Found(kids, d)
            && (Found(kids, d) ==> kids'[Slot(kids', d)] == kids[Slot(kids, d)])
  {
    SlotAfterInsert(kids, i, leaf, d);
    var r := Slot(kids, d);
    var kids' := kids[..i] + [leaf] + kids[i..];
    if leaf.prefix[0] < d {
      SlotAtLeast(kids, d, i);
      assert r < |kids| ==> kids'[r + 1] == kids[r];
    } else {
      SlotAtMost(kids, d, i);
      assert r < i ==> kids'[r] == kids[r];
    }
  }

  /** Cutting a child's prefix in two does not change what lies below it. */
  lemma {:induction false} CutKeepsEntries(ch: Tree, n: nat, q: Key)
    requires Shape(ch) && 0 < n < |ch.prefix|
    ensures AtKid(Cut(ch, n), q) == AtKid(ch, q)
  {
    var up := Cut(ch, n);
    var low := up.kids[0];
    assert ch.prefix == up.prefix + low.prefix;
    if up.prefix <= q {
      var rest := q[n..];
      assert q == up.prefix + rest;
      if rest != [] && rest[0] == low.prefix[0] {
        SlotUnique(up.kids, rest[0], 0);
        assert AtKid(up, q) == AtKid(low, rest);
        assert low.prefix <= rest <==> ch.prefix <= q;
        if low.prefix <= rest {
          assert rest[|low.prefix|..] == q[|ch.prefix|..];
          SameBelow(low, ch, rest[|low.prefix|..]);
        }
      } else if rest != [] {
        assert !Found(up.kids, rest[0]);
        assert q[n] != ch.prefix[n];
        assert !(ch.prefix <= q);
      }
    }
  }

  /** A node's own prefix plays no part in what lies below it. */
  lemma {:induction false} SameBelow(a: Tree, b: Tree, q: Key)
    requires Shape(a) && Shape(b) && a.kids == b.kids && a.mode == b.mode && a.value == b.value
    ensures At(a, q) == At(b, q)
  {
  }

  /** Insertion is exactly map update, on every key. */
  lemma {:induction false} InsertIsUpdate(t: Tree, s: Key, e: Entry, q: Key)
    requires Shape(t)
    ensures At(Insert(t, s, e), q) == if q == s then Held(e) else At(t, q)
    decreases |s|, 1
  {
    if s != [] {
      if !Found(t.kids, s[0]) {
        AddLeafIsUpdate(t, s, e, q);
      } else if q != [] {
        var i := Slot(t.kids, s[0]);
        var kid := InsertKid(t.kids[i], s, e);
        SlotAfterReplace(t.kids, i, kid, q[0]);
        if q[0] == s[0] {
          InsertKidIsUpdate(t.kids[i], s, e, q);
        }
      }
    }
  }

  lemma {:induction false} InsertKidIsUpdate(ch: Tree, s: Key, e: Entry, q: Key)
    requires Shape(ch) && ch.prefix != [] && s != [] && ch.prefix[0] == s[0]
    ensures AtKid(InsertKid(ch, s, e), q) == if q == s then Held(e) else AtKid(ch, q)
    decreases |s|, 0
  {
    var cl := CommonPrefixLen(ch.prefix, s);
    assert 0 < cl;
    if cl < |ch.prefix| {
      CutKeepsEntries(ch, cl, q);
    }
    var base := if cl == |ch.prefix| then ch else Cut(ch, cl);
    assert base.prefix == s[..cl];
    assert s == base.prefix + s[cl..];
    if base.prefix <= q {
      assert q == base.prefix + q[cl..];
      assert q[cl..] == s[cl..] <==> q == s;
      InsertIsUpdate(base, s[cl..], e, q[cl..]);
    } else {
      assert q != s;
    }
  }

  // ---------------------------------------------------------------- search

  /** Descent along s, carrying the best label-boundary match so far. */
  ghost function Get(t: Tree, s: Key, best: Option<Action>): Option<Action>
    requires Shape(t)
    decreases |s|
  {
    if s == [] then
      if t.mode == MatchExact then Some(t.value) else best
    else if !Found(t.kids, s[0]) then best
    else
      var kid := t.kids[Slot(t.kids, s[0])];
      var p := kid.prefix;
      if !(p <= s) then best
      else
        var best' := if kid.mode == MatchPrefix && (|s| == |p| || s[|p|] == DOT) then Some(kid.value) else best;
        if |s| > |p| then Get(kid, s[|p|..], best')
        else if kid.mode == MatchExact then Some(kid.value)
        else best'
  }

  ghost predicate IsPrefixEntry(o: Option<Entry>) {
    o.Some? && o.value.mode == MatchPrefix
  }

  /** The first i bytes of s end at a label boundary and hold a Prefix entry. */
  ghost predicate CoversIn(t: Tree, s: Key, i: int)
    requires Shape(t)
  {
    0 < i < |s| && s[i] == DOT && IsPrefixEntry(At(t, s[..i]))
  }

  /** i is the longest cover of s, or 0 when nothing covers s. */
  ghost predicate IsLongestCover(t: Tree, s: Key, i: nat)
    requires Shape(t)
  {
    && (i != 0 ==> i < |s| && CoversIn(t, s, i))
    && (forall j :: i < j < |s| ==> !CoversIn(t, s, j))
  }

  lemma {:induction false} AtBelowKid(t: Tree, i: nat, rest: Key)
    requires Shape(t) && i < |t.kids|
    ensures At(t, t.kids[i].prefix + rest) == At(t.kids[i], rest)
  {
    var kid := t.kids[i];
    var q := kid.prefix + rest;
    SlotUnique(t.kids, q[0], i);
    assert q[|kid.prefix|..] == rest;
  }

  lemma {:induction false} AtBesideKid(t: Tree, q: Key)
    requires Shape(t) && q != [] && Found(t.kids, q[0])
    requires !(t.kids[Slot(t.kids, q[0])].prefix <= q)
    ensures At(t, q) == None
  {
  }

  lemma {:induction false} AtTakeBelowKid(t: Tree, i: nat, rest: Key, j: nat)
    requires Shape(t) && i < |t.kids| && j <= |rest|
    ensures At(t, (t.kids[i].prefix + rest)[..|t.kids[i].prefix| + j]) == At(t.kids[i], rest[..j])
  {
    hide *;
    TakeOfConcat(t.kids[i].prefix, rest, j);
    AtBelowKid(t, i, rest[..j]);
  }

  lemma {:induction false} CoverBelowKid(t: Tree, i: nat, rest: Key, j: nat)
    requires Shape(t) && i < |t.kids| && j < |rest|
    ensures var kid := t.kids[i];
            CoversIn(t, kid.prefix + rest, |kid.prefix| + j)
            == if j == 0 then rest[0] == DOT && kid.mode == MatchPrefix else CoversIn(kid, rest, j)
  {
    AtTakeBelowKid(t, i, rest, j);
    IndexOfConcat(t.kids[i].prefix, rest, j);
    assert j == 0 ==> rest[..j] == [];
  }

  lemma {:induction false} NoCoverBesideKid(t: Tree, s: Key, j: nat)
    requires Shape(t) && s != [] && Found(t.kids, s[0]) && j < |s|
    requires var kid := t.kids[Slot(t.kids, s[0])]; !(kid.prefix <= s) || j < |kid.prefix|
    ensures !CoversIn(t, s, j)
  {
    if 0 < j {
      PrefixOfTake(t.kids[Slot(t.kids, s[0])].prefix, s, j);
      AtBesideKid(t, s[..j]);
    }
  }

  /** The entry at s itself, else the one at its longest cover i, else best. */
  ghost function MostSpecific(t: Tree, s: Key, best: Option<Action>, i: nat): Option<Action>
    requires Shape(t) && i <= |s| && (i > 0 ==> At(t, s[..i]).Some?)
  {
    if At(t, s).Some? then Some(At(t, s).value.action)
    else if i > 0 then Some(At(t, s[..i]).value.action)
    else best
  }

  /** Search returns the entry at s itself, else the longest Prefix entry at a label
      boundary of s, else what it was given. */
  lemma {:induction false} GetIsMostSpecific(t: Tree, s: Key, best: Option<Action>, i: nat)
    requires Shape(t) && s != []
    requires IsLongestCover(t, s, i)
    ensures Get(t, s, best) == MostSpecific(t, s, best, i)
    decreases |s|, 1
  {
    if Found(t.kids, s[0]) {
      var k := Slot(t.kids, s[0]);
      var p := t.kids[k].prefix;
      if p <= s && |p| < |s| {
        SplitAfterPrefix(p, s);
        GetBelowKid(t, k, s[|p|..], best, i);
      } else {
        assert i == 0 by {
          if i != 0 { NoCoverBesideKid(t, s, i); }
        }
        if p == s {
          AtBelowKid(t, k, []);
          assert p + [] == s;
        } else {
          AtBesideKid(t, s);
        }
      }
    }
  }

  lemma {:induction false} GetBelowKid(t: Tree, k: nat, rest: Key, best: Option<Action>, i: nat)
    requires Shape(t) && k < |t.kids| && rest != []
    requires IsLongestCover(t, t.kids[k].prefix + rest, i)
    ensures Get(t, t.kids[k].prefix + rest, best) == MostSpecific(t, t.kids[k].prefix + rest, best, i)
    decreases |t.kids[k].prefix + rest|, 0
  {
    var kid := t.kids[k];
    GetStep(t, k, rest, best);
    LongestCoverBelowKid(t, kid, k, rest, i);
    var best' := if kid.mode == MatchPrefix && rest[0] == DOT then Some(kid.value) else best;
    var i' := if |kid.prefix| < i then i - |kid.prefix| else 0;
    GetIsMostSpecific(kid, rest, best', i');
    MostSpecificBelowKid(t, k, rest, best, i);
  }

  lemma {:induction false} MostSpecificBelowKid(t: Tree, k: nat, rest: Key, best: Option<Action>, i: nat)
    requires Shape(t) && k < |t.kids| && Shape(t.kids[k]) && rest != []
    requires IsLongestCover(t, t.kids[k].prefix + rest, i)
    requires var kid := t.kids[k]; IsLongestCover(kid, rest, if |kid.prefix| < i then i - |kid.prefix| else 0)
    ensures var kid := t.kids[k];
            MostSpecific(t, kid.prefix + rest, best, i)
            == MostSpecific(kid, rest, if kid.mode == MatchPrefix && rest[0] == DOT then Some(kid.value) else best,
                            if |kid.prefix| < i then i - |kid.prefix| else 0)
  {
    var kid := t.kids[k];
    var n := |kid.prefix|;
    LongestCoverBesideKid(t, k, rest, i);
    CoverBelowKid(t, k, rest, 0);
    AtBelowKid(t, k, rest);
    if n <= i {
      AtTakeBelowKid(t, k, rest, i - n);
      assert rest[..0] == [] && At(kid, []) == OwnEntry(kid);
    }
    hide At, Shape;
    if i == n {
      assert CoversIn(t, kid.prefix + rest, n + 0);
    } else if i == 0 {
      assert !CoversIn(t, kid.prefix + rest, n + 0);
    }
  }

  lemma {:induction false} LongestCoverBesideKid(t: Tree, k: nat, rest: Key, i: nat)
    requires Shape(t) && k < |t.kids| && rest != []
    requires IsLongestCover(t, t.kids[k].prefix + rest, i)
    ensures i < |t.kids[k].prefix| + |rest|
    ensures i == 0 || |t.kids[k].prefix| <= i
  {
    var s := t.kids[k].prefix + rest;
    SlotUnique(t.kids, s[0], k);
    hide At, CoversIn, Shape;
    if 0 < i < |t.kids[k].prefix| {
      NoCoverBesideKid(t, s, i);
    }
  }

  lemma {:induction false} GetStep(t: Tree, k: nat, rest: Key, best: Option<Action>)
    requires Shape(t) && k < |t.kids| && rest != []
    ensures var kid := t.kids[k];
            Get(t, kid.prefix + rest, best)
            == Get(kid, rest, if kid.mode == MatchPrefix && rest[0] == DOT then Some(kid.value) else best)
  {
    var kid := t.kids[k];
    var s := kid.prefix + rest;
    SlotUnique(t.kids, s[0], k);
    assert s[|kid.prefix|..] == rest;
  }

  lemma {:induction false} NoLongerCoverBelowKid(t: Tree, k: nat, rest: Key, i: nat, j: nat)
    requires Shape(t) && k < |t.kids| && 0 < j < |rest|
    requires IsLongestCover(t, t.kids[k].prefix + rest, i) && i < |t.kids[k].prefix| + j
    ensures !CoversIn(t.kids[k], rest, j)
  {
    hide At, CoversIn, Shape;
    CoverBelowKid(t, k, rest, j);
  }

  lemma {:induction false} LongestCoverBelowKid(t: Tree, kid: Tree, k: nat, rest: Key, i: nat)
    requires Shape(t) && k < |t.kids| && rest != []
    requires kid == t.kids[k] && Shape(kid)
    requires IsLongestCover(t, kid.prefix + rest, i)
    ensures IsLongestCover(kid, rest, if |kid.prefix| < i then i - |kid.prefix| else 0)
  {
    hide At, CoversIn, Shape;
    forall j | (if |kid.prefix| < i then i - |kid.prefix| else 0) < j < |rest|
      ensures !CoversIn(kid, rest, j)
    {
      NoLongerCoverBelowKid(t, k, rest, i, j);
    }
    if |kid.prefix| < i {
      assert i < |kid.prefix + rest|;
      CoverBelowKid(t, k, rest, i - |kid.prefix|);
    }
  }
}
