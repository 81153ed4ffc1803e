// The radix tree on the heap (radix.go). Every node carries, as a ghost, the value of
// RadixTree that it represents; the methods are proved against the functions there.
module Radix {
  import opened Bytes
  import opened Actions
  import T = RadixTree

  datatype Child = Child(key: Byte, node: RadixNode)

  /** The number of leading bytes a and b share. */
  method CommonPrefixLen(a: Key, b: Key) returns (i: nat)
    ensures i == T.CommonPrefixLen(a, b)
  {
    var n := if |a| < |b| then |a| else |b|;
    i := 0;
    while i < n && a[i] == b[i]
      invariant i <= n
      invariant a[..i] == b[..i]
    {
      i := i + 1;
    }
    CommonPrefixLenUnique(a, b, i);
  }

  lemma {:induction false} CommonPrefixLenUnique(a: Key, b: Key, i: nat)
    requires i <= |a| && i <= |b| && a[..i] == b[..i]
    requires i < |a| && i < |b| ==> a[i] != b[i]
    ensures i == T.CommonPrefixLen(a, b)
  {
    SameBytes(a, b, i);
    SameBytes(a, b, T.CommonPrefixLen(a, b));
  }

  lemma {:induction false} SameBytes(a: Key, b: Key, i: nat)
    requires i <= |a| && i <= |b| && a[..i] == b[..i]
    ensures forall k :: 0 <= k < i ==> a[k] == b[k]
  {
    assert forall k :: 0 <= k < i ==> a[..i][k] == b[..i][k];
  }

  /** Children keyed by the first byte of their prefix, strictly ascending. */
  ghost predicate Ascending(children: seq<Child>) {
    forall i, j :: 0 <= i < j < |children| ==> children[i].key < children[j].key
  }

  /** slices.BinarySearchFunc on the children's keys. */
  method BinarySearch(children: seq<Child>, c: Byte) returns (i: nat, ok: bool)
    requires Ascending(children)
    ensures i <= |children|
    ensures forall j :: 0 <= j < i ==> children[j].key < c
    ensures forall j :: i <= j < |children| ==> c <= children[j].key
    ensures ok <==> exists j :: 0 <= j < |children| && children[j].key == c
    ensures ok ==> i < |children| && children[i].key == c
  {
    var lo, hi := 0, |children|;
    while lo < hi
      invariant lo <= hi <= |children|
      invariant forall j :: 0 <= j < lo ==> children[j].key < c
      invariant forall j :: hi <= j < |children| ==> c <= children[j].key
    {
      var h := (lo + hi) / 2;
      if children[h].key < c {
        lo := h + 1;
      } else {
        hi := h;
      }
    }
    i := lo;
    ok := i < |children| && children[i].key == c;
  }

  /** The scan used on short child lists: the same verdict and position as BinarySearch. */
  method LinearSearch(children: seq<Child>, c: Byte) returns (i: nat, ok: bool)
    requires Ascending(children)
    ensures ok <==> exists j :: 0 <= j < |children| && children[j].key == c
    ensures ok ==> i < |children| && children[i].key == c
  {
    i := 0;
    ok := false;
    while i < |children|
      invariant i <= |children| && !ok
      invariant forall j :: 0 <= j < i ==> children[j].key != c
    {
      if children[i].key == c {
        ok := true;
        return;
      }
      i := i + 1;
    }
  }

  const CHILDREN_LINEAR_SCAN_MAX := 8

  class RadixNode {
    var prefix: Key
    var children: seq<Child>
    var mode: MatchMode
    var value: Action

    ghost var Repr: set<object>
    ghost var tree: T.Tree

    /** The node owns a finite tree of distinct objects whose meaning is `tree`. */
    ghost predicate Valid()
      reads this, Repr
      ensures Valid() ==> this in Repr && T.Shape(tree)
      decreases Repr
    {
      && this in Repr
      && T.Shape(tree)
      && tree.prefix == prefix && tree.mode == mode && tree.value == value
      && |tree.kids| == |children|
      && (forall i :: 0 <= i < |children| ==> ValidKid(children[i], tree.kids[i]))
      && (forall i, j :: 0 <= i < j < |children| ==>
            ValidKid(children[i], tree.kids[i]) && ValidKid(children[j], tree.kids[j]) && children[i].node.Repr !! children[j].node.Repr)
    }

    /** The child owns its part of Repr and represents t. */
    ghost predicate ValidKid(child: Child, t: T.Tree)
      requires this in Repr
      reads this, Repr
      decreases Repr, 0
    {
      var n := child.node;
      && n in Repr && n.Repr <= Repr && this !in n.Repr
      && n.Valid()
      && n.tree == t
      && t.prefix != [] && child.key == t.prefix[0]
    }

    constructor Leaf(prefix: Key, mode: MatchMode, value: Action)
      ensures Valid() && fresh(Repr)
      ensures tree == T.Node(prefix, [], mode, value)
      ensures this.prefix == prefix
    {
      this.prefix := prefix;
      this.children := [];
      this.mode := mode;
      this.value := value;
      this.tree := T.Node(prefix, [], mode, value);
      this.Repr := {this};
    }

    /** A new node that takes over everything `up` holds, under another prefix. */
    constructor Below(up: RadixNode, prefix: Key)
      requires up.Valid()
      ensures Valid() && fresh(this)
      ensures Repr == up.Repr - {up} + {this}
      ensures tree == T.Node(prefix, up.tree.kids, up.mode, up.value)
      ensures this.prefix == prefix
    {
      this.prefix := prefix;
      this.children := up.children;
      this.mode := up.mode;
      this.value := up.value;
      this.tree := T.Node(prefix, up.tree.kids, up.mode, up.value);
      this.Repr := up.Repr - {up} + {this};
      new;
      forall i | 0 <= i < |children|
        ensures ValidKid(children[i], tree.kids[i])
      {
        assert up.ValidKid(up.children[i], up.tree.kids[i]);
      }
    }

    /** Valid children are in the order both searches rely on. */
    lemma {:induction false} ChildrenAscending()
      requires Valid()
      ensures Ascending(children)
    {
      forall i, j | 0 <= i < j < |children|
        ensures children[i].key < children[j].key
      {
        assert ValidKid(children[i], tree.kids[i]) && ValidKid(children[j], tree.kids[j]);
      }
    }

    lemma {:induction false} SearchIsSlot(c: Byte, i: nat)
      requires Valid() && i <= |children|
      requires forall j :: 0 <= j < i ==> children[j].key < c
      requires i < |children| ==> c <= children[i].key
      ensures i == T.Slot(tree.kids, c)
      ensures T.Found(tree.kids, c) <==> i < |children| && children[i].key == c
    {
      forall j | 0 <= j < |children|
        ensures children[j].key == tree.kids[j].prefix[0]
      {
        assert ValidKid(children[j], tree.kids[j]);
      }
      T.SlotUnique(tree.kids, c, i);
    }

    lemma {:induction false} HitIsSlot(c: Byte, i: nat)
      requires Valid() && i < |children| && children[i].key == c
      ensures i == T.Slot(tree.kids, c) && T.Found(tree.kids, c)
    {
      ChildrenAscending();
      SearchIsSlot(c, i);
    }

    /** Grows the list by one, shifts the children from i on up by one place, and puts the new
        one in the gap. */
    method InsertChildAt(i: nat, k: Byte, ch: RadixNode)
      requires i <= |children|
      modifies this`children
      ensures children == old(children[..i]) + [Child(k, ch)] + old(children[i..])
    {
      ghost var was := children;
      var n := |children|;
      children := children + [Child(k, ch)];
      while i < n
        invariant i <= n <= |was| && |children| == |was| + 1
        invariant forall j {:trigger children[j]} :: 0 <= j < |children| && j != n ==>
                    children[j] == was[if j < n then j else j - 1]
        decreases n
      {
        children := children[n := children[n - 1]];
        n := n - 1;
      }
      children := children[i := Child(k, ch)];
      InsertedAt(was, i, Child(k, ch));
    }

    /** Splits this node in two after n bytes of its prefix; the upper half stays here. */
    method Cut(n: nat)
      requires Valid() && 0 < n < |prefix|
      modifies this
      ensures Valid() && fresh(Repr - old(Repr))
      ensures tree == T.Cut(old(tree), n)
    {
      var split := new RadixNode.Below(this, prefix[n..]);
      ghost var t := tree;
      hide T.Shape;
      prefix := prefix[..n];
      children := [Child(split.prefix[0], split)];
      value := ZERO;
      mode := MatchNone;
      tree := T.Cut(t, n);
      Repr := {this} + split.Repr;
      assert ValidKid(children[0], tree.kids[0]);
    }

    /** What is left of Valid while child i is being changed. */
    ghost predicate ValidBeside(i: nat)
      reads this, Repr
    {
      && this in Repr
      && T.Shape(tree)
      && tree.prefix == prefix && tree.mode == mode && tree.value == value
      && |tree.kids| == |children| && i < |children|
      && (forall j :: 0 <= j < |children| && j != i ==> ValidKid(children[j], tree.kids[j]))
      && (forall j, k :: 0 <= j < k < |children| && j != i && k != i ==>
            ValidKid(children[j], tree.kids[j]) && ValidKid(children[k], tree.kids[k]) && children[j].node.Repr !! children[k].node.Repr)
    }

    /** Accounts for a change made to child i. */
    ghost method Reattach(i: nat)
      requires ValidBeside(i)
      requires var ch := children[i].node;
               && ch.Valid() && this !in ch.Repr
               && ch.tree.prefix != []
               && ch.tree.prefix[0] == children[i].key == tree.kids[i].prefix[0]
      requires forall j :: 0 <= j < |children| && j != i ==> children[j].node.Repr !! children[i].node.Repr
      modifies this`tree, this`Repr
      ensures Valid()
      ensures tree == T.PutKid(old(tree), i, children[i].node.tree)
      ensures Repr == old(Repr) + children[i].node.Repr
    {
      tree := T.PutKid(tree, i, children[i].node.tree);
      Repr := Repr + children[i].node.Repr;
      forall j | 0 <= j < |children|
        ensures ValidKid(children[j], tree.kids[j])
      {
        assert j != i ==> old(ValidKid(children[j], tree.kids[j]));
      }
    }

    method AddLeaf(i: nat, s: Key, val: Action, m: MatchMode)
      requires Valid() && s != [] && i == T.Slot(tree.kids, s[0]) && !T.Found(tree.kids, s[0])
      modifies this
      ensures Valid() && fresh(Repr - old(Repr))
      ensures tree == T.AddLeaf(old(tree), s, Entry(val, m))
    {
      var leaf := new RadixNode.Leaf(s, m, val);
      InsertChildAt(i, s[0], leaf);
      InsertedAt(old(children), i, Child(s[0], leaf));
      AttachLeaf(i, old(children), Entry(val, m));
    }

    /** Map update, in place (RadixTree.InsertIsUpdate). */
    method Insert(s: Key, val: Action, m: MatchMode)
      requires Valid()
      modifies Repr
      ensures Valid() && fresh(Repr - old(Repr))
      ensures tree == T.Insert(old(tree), s, Entry(val, m))
      decreases |s|, 1
    {
      if |s| == 0 {
        SetEntry(val, m);
        return;
      }
      var c := s[0];
      ChildrenAscending();
      var i, ok := BinarySearch(children, c);
      SearchIsSlot(c, i);
      if !ok {
        AddLeaf(i, s, val, m);
        return;
      }
      hide T.Shape, T.InsertKid, T.PutKid, T.AddLeaf, T.Slot;
      var ch := children[i].node;
      assert ValidKid(children[i], tree.kids[i]);
      ch.InsertKid(s, val, m);
      OtherKidsKept(i);
      Reattach(i);
    }

    /** A change confined to child i leaves the other children valid and apart from it. */
    twostate lemma {:induction false} OtherKidsKept(i: nat)
      requires old(Valid()) && unchanged(this) && i < |children|
      requires unchanged(old(Repr - children[i].node.Repr))
      requires fresh(children[i].node.Repr - old(children[i].node.Repr))
      ensures ValidBeside(i)
      ensures forall j :: 0 <= j < |children| && j != i ==> children[j].node.Repr !! children[i].node.Repr
    {
      assert old(ValidKid(children[i], tree.kids[i]));
      forall j | 0 <= j < |children| && j != i
        ensures ValidKid(children[j], tree.kids[j]) && children[j].node.Repr == old(children[j].node.Repr)
        ensures children[j].node.Repr !! children[i].node.Repr
      {
        assert old(ValidKid(children[j], tree.kids[j]));
        assert unchanged(old(children[j].node.Repr));
      }
    }

    /** The switch of insert on the child that shares its first byte with s. */
    method InsertKid(s: Key, val: Action, m: MatchMode)
      requires Valid() && prefix != [] && s != [] && prefix[0] == s[0]
      modifies Repr
      ensures Valid() && fresh(Repr - old(Repr))
      ensures tree == T.InsertKid(old(tree), s, Entry(val, m))
      decreases |s|, 0
    {
      var cl := CommonPrefixLen(prefix, s);
      assert 0 < cl;
      if cl == |prefix| {
        Insert(s[cl..], val, m);
      } else if cl < |s| {
        Cut(cl);
        Insert(s[cl..], val, m);
      } else {
        Cut(cl);
        SetEntry(val, m);
      }
    }

    method SetEntry(val: Action, m: MatchMode)
      requires Valid()
      modifies this
      ensures Valid() && Repr == old(Repr)
      ensures tree == old(tree).(value := val, mode := m)
    {
      value := val;
      mode := m;
      tree := tree.(value := val, mode := m);
      forall i | 0 <= i < |children|
        ensures ValidKid(children[i], tree.kids[i])
      {
        assert old(ValidKid(children[i], tree.kids[i]));
      }
    }

    /** Descends along s; `best` is the label-boundary match found so far. */
    method Get(s: Key, best: Option<Action>) returns (r: Option<Action>)
      requires Valid()
      ensures r == T.Get(tree, s, best)
      decreases |s|
    {
      if |s| == 0 {
        return if mode == MatchExact then Some(value) else best;
      }
      hide T.Slot, T.Found, T.Shape;
      var i, ok := FindChild(s[0]);
      if !ok {
        return best;
      }
      var ch := children[i].node;
      assert ValidKid(children[i], tree.kids[i]);
      var p := ch.prefix;
      assert ch.Valid() && p == ch.tree.prefix;
      if |s| >= |p| && p <= s {
        var best' := best;
        if ch.mode == MatchPrefix {
          if |s| == |p| || s[|p|] == DOT {
            best' := Some(ch.value);
          }
        }
        if |s| == |p| {
          return if ch.mode == MatchExact then Some(ch.value) else best';
        }
        r := ch.Get(s[|p|..], best');
        return;
      }
      return best;
    }

    /** The child for c, by scanning a short list and by binary search in a long one. */
    method FindChild(c: Byte) returns (i: nat, ok: bool)
      requires Valid()
      ensures ok <==> T.Found(tree.kids, c)
      ensures ok ==> i < |children| && i == T.Slot(tree.kids, c)
    {
      hide T.Slot, T.Found, T.Shape;
      ChildrenAscending();
      if |children| < CHILDREN_LINEAR_SCAN_MAX {
        i, ok := LinearSearch(children, c);
      } else {
        i, ok := BinarySearch(children, c);
      }
      if ok {
        HitIsSlot(c, i);
      } else {
        NoHit(c);
      }
    }

    lemma {:induction false} NoHit(c: Byte)
      requires Valid() && forall j :: 0 <= j < |children| ==> children[j].key != c
      ensures !T.Found(tree.kids, c)
    {
      var i := T.Slot(tree.kids, c);
      if i < |children| {
        assert ValidKid(children[i], tree.kids[i]);
      }
    }

    /** Accounts for a leaf put among the children at i. */
    ghost method AttachLeaf(i: nat, was: seq<Child>, e: Entry)
      requires this in Repr && T.Shape(tree)
      requires tree.prefix == prefix && tree.mode == mode && tree.value == value
      requires |tree.kids| == |was| && i <= |was| && |children| == |was| + 1
      requires forall j :: 0 <= j < |was| ==> ValidKid(was[j], tree.kids[j])
      requires forall j, k :: 0 <= j < k < |was| ==>
                 ValidKid(was[j], tree.kids[j]) && ValidKid(was[k], tree.kids[k]) && was[j].node.Repr !! was[k].node.Repr
      requires forall j {:trigger children[j]} :: 0 <= j < |children| && j != i ==>
                 children[j] == was[if j < i then j else j - 1]
      requires var leaf := children[i].node;
               && leaf.Valid() && leaf.Repr !! Repr
               && leaf.tree == T.Node(leaf.prefix, [], e.mode, e.action)
               && leaf.prefix != [] && leaf.prefix[0] == children[i].key
      requires i == T.Slot(tree.kids, children[i].key) && !T.Found(tree.kids, children[i].key)
      modifies this`tree, this`Repr
      ensures Valid() && Repr == old(Repr) + children[i].node.Repr
      ensures tree == T.AddLeaf(old(tree), children[i].node.prefix, e)
    {
      ghost var leaf := children[i].node;
      ghost var t := tree;
      T.AddLeafKids(tree, leaf.prefix, e);
      tree := T.AddLeaf(tree, leaf.prefix, e);
      hide T.Shape, T.AddLeaf, T.Slot, T.Found;
      Repr := Repr + leaf.Repr;
      assert ValidKid(children[i], tree.kids[i]);
      StillValidKids(was, t.kids, i);
      StillDisjoint(was, children, i, old(Repr));
      ValidKidsDone();
    }

    lemma {:induction false} StillValidKids(was: seq<Child>, kids: seq<T.Tree>, i: nat)
      requires this in Repr && |was| == |kids| && |children| == |tree.kids| == |was| + 1 && i <= |was|
      requires forall j {:trigger was[j]} :: 0 <= j < |was| ==> ValidKid(was[j], kids[j])
      requires forall j {:trigger children[j]} :: 0 <= j < |children| && j != i ==> children[j] == was[if j < i then j else j - 1]
      requires forall j {:trigger tree.kids[j]} :: 0 <= j < |tree.kids| && j != i ==> tree.kids[j] == kids[if j < i then j else j - 1]
      requires ValidKid(children[i], tree.kids[i])
      ensures forall j :: 0 <= j < |children| ==> ValidKid(children[j], tree.kids[j])
    {
      hide ValidKid;
      forall j | 0 <= j < |children|
        ensures ValidKid(children[j], tree.kids[j])
      {
        if j != i {
          var k := if j < i then j else j - 1;
          assert children[j] == was[k] && tree.kids[j] == kids[k];
        }
      }
    }

    lemma {:induction false} ValidKidsDone()
      requires this in Repr && T.Shape(tree)
      requires tree.prefix == prefix && tree.mode == mode && tree.value == value && |tree.kids| == |children|
      requires forall j :: 0 <= j < |children| ==> ValidKid(children[j], tree.kids[j])
      requires forall j, k :: 0 <= j < k < |children| ==> children[j].node.Repr !! children[k].node.Repr
      ensures Valid()
    {
      hide ValidKid;
    }
  }

  lemma {:induction false} InsertedAt(was: seq<Child>, i: nat, child: Child)
    requires i <= |was|
    ensures var now := was[..i] + [child] + was[i..];
            && |now| == |was| + 1 && now[i] == child
            && (forall j {:trigger now[j]} :: 0 <= j < |now| && j != i ==> now[j] == was[if j < i then j else j - 1])
  {
  }

  lemma {:induction false} StillDisjoint(was: seq<Child>, now: seq<Child>, i: nat, R: set<object>)
    requires i <= |was| && |now| == |was| + 1
    requires forall j {:trigger now[j]} :: 0 <= j < |now| && j != i ==> now[j] == was[if j < i then j else j - 1]
    requires forall j, k :: 0 <= j < k < |was| ==> was[j].node.Repr !! was[k].node.Repr
    requires forall j :: 0 <= j < |was| ==> was[j].node.Repr <= R
    requires now[i].node.Repr !! R
    ensures forall j, k :: 0 <= j < k < |now| ==> now[j].node.Repr !! now[k].node.Repr
  {
  }
}
