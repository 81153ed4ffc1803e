// Reversal of a domain's labels (radix.go): www.example.com becomes com.example.www,
// so that the ancestors of a domain become prefixes of its key.
module Labels {
  import opened Bytes

  /** The position of the last dot of d, or -1. */
  function LastDot(d: Key): (i: int)
    ensures -1 <= i < |d|
    ensures i >= 0 ==> d[i] == DOT
    ensures forall j :: i < j < |d| ==> d[j] != DOT
  {
    if d == [] then -1
    else if d[|d| - 1] == DOT then |d| - 1
    else LastDot(d[..|d| - 1])
  }

  function Reverse(d: Key): Key
    decreases |d|
  {
    var i := LastDot(d);
    Piece(d, i, |d|) + if i >= 0 then Reverse(d[..i]) else []
  }

  /** The label between a dot at i and `end`, with the dot that is to follow it. */
  function Piece(d: Key, i: int, end: int): Key
    requires -1 <= i < end <= |d| || i == -1 == end - 1
  {
    if i + 1 < end then d[i + 1..end] + (if i > 0 then [DOT] else []) else []
  }

  /** What is still to be written when the first `end` bytes are left. */
  ghost function Rest(d: Key, end: int): Key
    requires -1 <= end <= |d|
  {
    if end >= 0 then Reverse(d[..end]) else []
  }

  lemma {:induction false} RestStep(d: Key, i: int, end: int)
    requires -1 <= i < end <= |d| && (i >= 0 ==> d[i] == DOT)
    requires forall j :: i < j < end ==> d[j] != DOT
    ensures Rest(d, end) == Piece(d, i, end) + Rest(d, i)
  {
    LastDotUnique(d[..end], i);
    PieceOfTake(d, i, end);
    if i >= 0 {
      TakeOfTake(d, i, end);
    }
  }

  lemma {:induction false} PieceOfTake(d: Key, i: int, end: int)
    requires -1 <= i < end <= |d|
    ensures Piece(d[..end], i, end) == Piece(d, i, end)
  {
    SliceOfTake(d, i + 1, end, end);
  }

  method ReverseLabels(key: Key) returns (b: Key)
    ensures b == Reverse(key)
  {
    b := [];
    var end := |key|;
    hide Rest, Reverse, LastDot;
    assert key[..|key|] == key;
    RestOfWhole(key);
    while end >= 0
      invariant -1 <= end <= |key|
      invariant b + Rest(key, end) == Reverse(key)
    {
      var i := end - 1;
      while i >= 0 && key[i] != DOT
        invariant -1 <= i < end
        invariant forall j :: i < j < end ==> key[j] != DOT
      {
        i := i - 1;
      }
      RestStep(key, i, end);
      ConcatAssoc(b, Piece(key, i, end), Rest(key, i));
      ghost var next := b + Piece(key, i, end);
      if i + 1 < end {
        ConcatAssoc(b, key[i + 1..end], [DOT]);
        b := b + key[i + 1..end];
        if i > 0 {
          b := b + [DOT];
        }
      }
      assert b == next;
      end := i;
    }
  }

  lemma {:induction false} RestOfWhole(d: Key)
    requires d[..|d|] == d
    ensures Rest(d, |d|) == Reverse(d) && Rest(d, -1) == []
  {
    hide Reverse, LastDot;
  }

  lemma {:induction false} LastDotUnique(d: Key, i: int)
    requires -1 <= i < |d| && (i >= 0 ==> d[i] == DOT)
    requires forall j :: i < j < |d| ==> d[j] != DOT
    ensures i == LastDot(d)
  {
    var k := LastDot(d);
  }

  // ---------------------------------------------------------------- clean domains

  /** No empty label: every dot separates two non-empty labels. */
  predicate Clean(d: Key) {
    forall i :: 0 <= i < |d| && d[i] == DOT ==> 0 < i < |d| - 1 && d[i + 1] != DOT
  }

  predicate IsLabel(l: Key) {
    l != [] && DOT !in l
  }

  /** a, a dot, b: when b is a domain, a subdomain of it. */
  function Under(a: Key, b: Key): Key {
    a + [DOT] + b
  }

  lemma {:induction false} UnderBytes(a: Key, b: Key)
    ensures |Under(a, b)| == |a| + 1 + |b| && Under(a, b)[|a|] == DOT
    ensures forall i :: 0 <= i < |a| ==> Under(a, b)[i] == a[i]
    ensures forall i {:trigger Under(a, b)[i]} :: |a| < i < |Under(a, b)| ==> Under(a, b)[i] == b[i - |a| - 1]
  {
  }

  lemma {:induction false} UnderAssoc(a: Key, b: Key, c: Key)
    ensures Under(Under(a, b), c) == Under(a, Under(b, c))
  {
  }

  lemma {:induction false} CleanLeft(a: Key, b: Key)
    requires a != [] && b != [] && Clean(Under(a, b))
    ensures Clean(a)
  {
    UnderBytes(a, b);
    forall i | 0 <= i < |a| && a[i] == DOT
      ensures 0 < i < |a| - 1 && a[i + 1] != DOT
    {
      assert Under(a, b)[i] == DOT;
    }
  }

  lemma {:induction false} CleanRight(a: Key, b: Key)
    requires a != [] && b != [] && Clean(Under(a, b))
    ensures Clean(b)
  {
    UnderBytes(a, b);
    var n := |a| + 1;
    assert Under(a, b)[n] == b[0];
    forall i | 0 <= i < |b| && b[i] == DOT
      ensures 0 < i < |b| - 1 && b[i + 1] != DOT
    {
      assert Under(a, b)[n + i] == DOT;
      assert Under(a, b)[n + i + 1] == b[i + 1];
    }
  }

  lemma {:induction false} CleanUnder(a: Key, b: Key)
    requires a != [] && b != [] && Clean(a) && Clean(b)
    ensures Clean(Under(a, b))
  {
    UnderBytes(a, b);
    var d := Under(a, b);
    forall i | 0 <= i < |d| && d[i] == DOT
      ensures 0 < i < |d| - 1 && d[i + 1] != DOT
    {
      if i < |a| {
        assert a[i] == DOT;
      } else if i > |a| {
        assert b[i - |a| - 1] == DOT;
      } else {
        assert d[i + 1] == b[0];
      }
    }
  }

  /** A clean domain is a label, or a label on top of a shorter clean domain. */
  lemma {:induction false} LastLabel(d: Key) returns (a: Key, l: Key)
    requires Clean(d) && d != []
    ensures IsLabel(l)
    ensures a == [] ==> d == l
    ensures a != [] ==> d == Under(a, l) && Clean(a) && |a| < |d|
  {
    var i := LastDot(d);
    if i < 0 {
      a, l := [], d;
    } else {
      a, l := d[..i], d[i + 1..];
      assert d == Under(a, l);
      CleanLeft(a, l);
    }
  }

  // ---------------------------------------------------------------- reversal of clean domains

  lemma {:induction false} ReverseStep(d: Key, i: int)
    requires -1 <= i < |d| && (i >= 0 ==> d[i] == DOT)
    requires forall j :: i < j < |d| ==> d[j] != DOT
    ensures Reverse(d) == Piece(d, i, |d|) + if i >= 0 then Reverse(d[..i]) else []
  {
    LastDotUnique(d, i);
  }

  lemma {:induction false} ReverseLabel(l: Key)
    requires IsLabel(l)
    ensures Reverse(l) == l
  {
    hide Reverse;
    ReverseStep(l, -1);
    assert l[0..|l|] == l;
  }

  lemma {:induction false} UnderParts(a: Key, b: Key)
    ensures Under(a, b)[..|a|] == a
    ensures Under(a, b)[|a| + 1..|a| + 1 + |b|] == b
  {
  }

  lemma {:induction false} ReverseSnoc(a: Key, l: Key)
    requires a != [] && IsLabel(l)
    ensures Reverse(Under(a, l)) == Under(l, Reverse(a))
  {
    hide Reverse;
    UnderBytes(a, l);
    UnderParts(a, l);
    ReverseStep(Under(a, l), |a|);
  }

  /** Reversal exchanges the two sides of a dot. */
  lemma {:induction false} ReverseUnder(a: Key, b: Key)
    requires a != [] && b != [] && Clean(b)
    ensures Reverse(Under(a, b)) == Under(Reverse(b), Reverse(a))
    decreases |b|
  {
    hide Reverse;
    var c, l := LastLabel(b);
    if c == [] {
      ReverseSnoc(a, l);
      ReverseLabel(l);
    } else {
      UnderAssoc(a, c, l);
      ReverseSnoc(Under(a, c), l);
      ReverseUnder(a, c);
      ReverseSnoc(c, l);
      UnderAssoc(l, Reverse(c), Reverse(a));
    }
  }

  /** On clean domains reversal is a length-preserving involution. */
  lemma {:induction false} ReverseInvolution(d: Key)
    requires Clean(d)
    ensures |Reverse(d)| == |d| && Clean(Reverse(d)) && Reverse(Reverse(d)) == d
    decreases |d|
  {
    if d != [] {
      hide Reverse, Clean;
      var a, l := LastLabel(d);
      ReverseLabel(l);
      LabelIsClean(l);
      if a != [] {
        ReverseSnoc(a, l);
        ReverseInvolution(a);
        CleanUnder(l, Reverse(a));
        ReverseUnder(l, Reverse(a));
      }
    }
  }

  lemma {:induction false} LabelIsClean(l: Key)
    requires IsLabel(l)
    ensures Clean(l)
  {
  }

  /** What reversal can produce at all: a clean domain, perhaps with one trailing dot. */
  lemma {:induction false} ReverseImage(d: Key)
    ensures IsImage(Reverse(d))
    decreases |d|
  {
    hide Reverse;
    var i := LastDot(d);
    if i < 0 {
      if d != [] {
        ReverseLabel(d);
        LabelIsClean(d);
      } else {
        ReverseEmpty();
      }
    } else {
      ReverseImage(d[..i]);
      ImageStep(d, i);
    }
  }

  lemma {:induction false} ReverseEmpty()
    ensures Reverse([]) == []
  {
    ReverseStep([], -1);
  }

  lemma {:induction false} ImageStep(d: Key, i: nat)
    requires i == LastDot(d) && IsImage(Reverse(d[..i]))
    ensures IsImage(Reverse(d))
  {
    hide Reverse, Clean, LastDot;
    ReverseStep(d, i);
    var l := d[i + 1..|d|];
    if l != [] {
      if i == 0 {
        assert d[..0] == [];
        ReverseEmpty();
        LabelIsClean(l);
        assert Reverse(d) == l;
      } else {
        ImageUnder(l, Reverse(d[..i]));
      }
    } else {
      assert Reverse(d) == Reverse(d[..i]);
    }
  }

  ghost predicate IsImage(r: Key) {
    Clean(r) || exists c :: c != [] && Clean(c) && r == c + [DOT]
  }

  lemma {:induction false} ImageUnder(l: Key, r: Key)
    requires IsLabel(l) && IsImage(r)
    ensures IsImage(Under(l, r))
  {
    hide Clean;
    LabelIsClean(l);
    if r == [] {
      assert Under(l, r) == l + [DOT];
    } else if Clean(r) {
      CleanUnder(l, r);
    } else {
      var c :| c != [] && Clean(c) && r == c + [DOT];
      CleanUnder(l, c);
      assert Under(l, r) == Under(l, c) + [DOT];
    }
  }

  lemma {:induction false} ReverseTrailingDot(c: Key)
    requires c != []
    ensures Reverse(c + [DOT]) == Reverse(c)
  {
    var d := c + [DOT];
    LastDotUnique(d, |c|);
    assert d[..|c|] == c;
  }

  /** Reversing twice gives the domain back exactly when it has no empty label. */
  lemma {:induction false} InvolutionOnlyWhenClean(d: Key)
    ensures Reverse(Reverse(d)) == d <==> Clean(d)
  {
    if Clean(d) {
      ReverseInvolution(d);
    } else {
      hide Reverse;
      ReverseImage(Reverse(d));
      if c :| c != [] && Clean(c) && d == c + [DOT] {
        ReverseTrailingDot(c);
        ReverseInvolution(c);
      }
    }
  }

  /** A single leading dot leaves no trace in the key. */
  lemma {:induction false} LeadingDotIgnored(d: Key)
    requires d != [] && d[0] != DOT
    ensures Reverse([DOT] + d) == Reverse(d)
    decreases |d|
  {
    hide Reverse;
    var i := LastDot(d);
    ReverseStep(d, i);
    WithDot(d, i);
    ReverseStep([DOT] + d, i + 1);
    if i < 0 {
      ReverseEmpty();
    } else {
      LeadingDotIgnored(d[..i]);
    }
  }

  lemma {:induction false} WithDot(d: Key, i: int)
    requires -1 <= i < |d| && forall j :: i < j < |d| ==> d[j] != DOT
    requires i >= 0 ==> d[i] == DOT
    ensures var dd := [DOT] + d;
            && |dd| == |d| + 1 && dd[i + 1] == DOT && (forall j :: i + 1 < j < |dd| ==> dd[j] != DOT)
            && dd[i + 2..|dd|] == d[i + 1..|d|] && dd[..i + 1] == if i < 0 then [] else [DOT] + d[..i]
  {
    var dd := [DOT] + d;
    assert forall j :: 1 <= j < |dd| ==> dd[j] == d[j - 1];
  }

  /** On actual bytes: "www.example.com" has the key "com.example.www". */
  lemma {:induction false} KeyOfExample()
    ensures Reverse([119, 119, 119, 46, 101, 120, 97, 109, 112, 108, 101, 46, 99, 111, 109])
         == [99, 111, 109, 46, 101, 120, 97, 109, 112, 108, 101, 46, 119, 119, 119]
  {
    hide Reverse;
    var www, example, com: Key := [119, 119, 119], [101, 120, 97, 109, 112, 108, 101], [99, 111, 109];
    ReverseLabel(www);
    ReverseSnoc(www, example);
    ReverseSnoc(Under(www, example), com);
    assert Under(Under(www, example), com) == [119, 119, 119, 46, 101, 120, 97, 109, 112, 108, 101, 46, 99, 111, 109];
    assert Under(com, Under(example, www)) == [99, 111, 109, 46, 101, 120, 97, 109, 112, 108, 101, 46, 119, 119, 119];
  }

  /** The case the premise excludes: leading dots leave a trailing dot in the key. */
  lemma {:induction false} LeadingDotsLeaveTrailingDot(l: Key)
    requires IsLabel(l)
    ensures Reverse([DOT, DOT] + l) == l + [DOT]
  {
    hide Reverse;
    var d := [DOT, DOT] + l;
    ReverseStep(d, 1);
    assert d[2..|d|] == l && d[..1] == [DOT];
    ReverseStep([DOT], 0);
    assert [DOT][..0] == [];
    ReverseStep([], -1);
  }

  // ---------------------------------------------------------------- ancestors become prefixes

  /** p's key covers d's key at a label boundary exactly when d is a subdomain of p. */
  lemma {:induction false} CoversIsSubdomain(p: Key, d: Key)
    requires Clean(p) && Clean(d) && p != [] && d != []
    ensures LabelCovers(Reverse(p), Reverse(d)) <==> exists a :: a != [] && d == Under(a, p)
  {
    hide Reverse;
    ReverseInvolution(p);
    ReverseInvolution(d);
    var rp, rd := Reverse(p), Reverse(d);
    if LabelCovers(rp, rd) {
      var y := rd[|rp| + 1..];
      assert rd == Under(rp, y);
      assert y != [] by {
        assert rd[|rp|] == DOT;
      }
      CleanRight(rp, y);
      ReverseUnder(rp, y);
      assert d == Under(Reverse(y), p);
      ReverseInvolution(y);
    }
    if a :| a != [] && d == Under(a, p) {
      CleanLeft(a, p);
      ReverseUnder(a, p);
      UnderBytes(rp, Reverse(a));
      assert rd[..|rp|] == rp;
    }
  }
}
