// Byte strings, the order bytes.Compare puts on them, and label boundaries.
// The prefix test bytes.HasPrefix(k, p) is Dafny's own `p <= k` on sequences.
module Bytes {
  type Byte = b: int | 0 <= b < 256
  type Key = seq<Byte>

  const DOT: Byte := 46

  datatype Option<+T> = None | Some(value: T)

  /** a sorts strictly before b: bytes.Compare(a, b) < 0. */
  predicate Less(a: Key, b: Key) {
    if b == [] then false
    else if a == [] then true
    else a[0] < b[0] || (a[0] == b[0] && Less(a[1..], b[1..]))
  }

  /** p is a strict ancestor of k: p is followed in k by a dot. */
  predicate LabelCovers(p: Key, k: Key) {
    |p| < |k| && p <= k && k[|p|] == DOT
  }

  /** The order in other words: at the first difference the smaller byte, or the end, is first. */
  lemma {:induction false} LessMeans(a: Key, b: Key)
    ensures Less(a, b) <==> a < b || exists i :: FirstDifference(a, b, i) && a[i] < b[i]
  {
    if a == [] || b == [] {
    } else if a[0] != b[0] {
      assert FirstDifference(a, b, 0);
    } else {
      assert a == [a[0]] + a[1..] && b == [b[0]] + b[1..];
      LessMeans(a[1..], b[1..]);
      if i :| FirstDifference(a[1..], b[1..], i) && a[1..][i] < b[1..][i] {
        assert FirstDifference(a, b, i + 1);
      }
      if i :| FirstDifference(a, b, i) && a[i] < b[i] {
        assert FirstDifference(a[1..], b[1..], i - 1);
      }
    }
  }

  predicate FirstDifference(a: Key, b: Key, i: int) {
    0 <= i < |a| && i < |b| && a[i] != b[i] && forall j :: 0 <= j < i ==> a[j] == b[j]
  }

  /** Bytes sort around the dot: for any key k, k-x comes after k and before k.y. */
  lemma {:induction false} HyphenSortsBetween(k: Key, x: Key, y: Key)
    ensures Less(k, k + [45] + x) && Less(k + [45] + x, k + [46] + y) && LabelCovers(k, k + [46] + y)
    ensures !LabelCovers(k, k + [45] + x)
  {
    PrefixLess(k, k + [45] + x);
    var a, b := k + [45] + x, k + [46] + y;
    assert a[|k|] == 45 && b[|k|] == 46;
    LessMeans(a, b);
    assert FirstDifference(a, b, |k|);
  }

  lemma {:induction false} LessIrreflexive(a: Key)
    ensures !Less(a, a)
  {
    if a != [] {
      LessIrreflexive(a[1..]);
    }
  }

  lemma {:induction false} LessTransitive(a: Key, b: Key, c: Key)
    requires Less(a, b) && Less(b, c)
    ensures Less(a, c)
  {
    if a != [] && a[0] == b[0] == c[0] {
      LessTransitive(a[1..], b[1..], c[1..]);
    }
  }

  lemma {:induction false} LessTotal(a: Key, b: Key)
    ensures Less(a, b) || Less(b, a) || a == b
  {
    if a != [] && b != [] && a[0] == b[0] {
      LessTotal(a[1..], b[1..]);
      assert a == [a[0]] + a[1..] && b == [b[0]] + b[1..];
    }
  }

  lemma {:induction false} LessAsymmetric(a: Key, b: Key)
    requires Less(a, b)
    ensures a != b && !Less(b, a)
  {
    LessIrreflexive(a);
    if Less(b, a) {
      LessTransitive(a, b, a);
    }
  }

  /** A proper prefix sorts first. */
  lemma {:induction false} PrefixLess(p: Key, k: Key)
    requires p < k
    ensures Less(p, k)
  {
    if p != [] {
      assert p[0] == k[0] && p[1..] < k[1..];
      PrefixLess(p[1..], k[1..]);
    }
  }

  /** The keys having p as a prefix form an interval that starts at p. */
  lemma {:induction false} PrefixInterval(p: Key, k: Key, q: Key)
    requires p == k || Less(p, k)
    requires k == q || Less(k, q)
    requires p <= q
    ensures p <= k
  {
    if p != [] && p != k && k != q {
      assert q[0] == p[0] && p[1..] <= q[1..];
      assert k != [];
      assert k[0] == p[0];
      assert k == [k[0]] + k[1..] && p == [p[0]] + p[1..] && q == [q[0]] + q[1..];
      PrefixInterval(p[1..], k[1..], q[1..]);
    }
  }

  lemma {:induction false} PrefixOfTake(p: Key, s: Key, j: nat)
    requires j <= |s|
    ensures p <= s[..j] <==> p <= s && |p| <= j
  {
    if p <= s && |p| <= j {
      assert p == s[..|p|] == s[..j][..|p|];
    }
  }

  lemma {:induction false} TakeOfConcat(p: Key, rest: Key, j: nat)
    requires j <= |rest|
    ensures (p + rest)[..|p| + j] == p + rest[..j]
  {
  }

  lemma {:induction false} IndexOfConcat(p: Key, rest: Key, j: nat)
    requires j < |rest|
    ensures (p + rest)[|p| + j] == rest[j]
  {
  }

  lemma {:induction false} TakeOfTake(s: Key, i: nat, j: nat)
    requires i <= j <= |s|
    ensures s[..j][..i] == s[..i]
  {
  }

  lemma {:induction false} SliceOfTake(s: Key, i: nat, k: nat, j: nat)
    requires i <= k <= j <= |s|
    ensures s[..j][i..k] == s[i..k]
  {
  }

  lemma {:induction false} ConcatAssoc(a: Key, b: Key, c: Key)
    ensures (a + b) + c == a + (b + c)
  {
  }

  lemma {:induction false} SplitAfterPrefix(p: Key, s: Key)
    requires p <= s
    ensures s == p + s[|p|..]
  {
  }
}
