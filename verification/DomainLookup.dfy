// The answer read in terms of domains instead of keys: the domain's own entry, else that of
// its nearest ancestor listed with subdomains, else Pass.
module DomainLookup {
  import opened Bytes
  import opened Actions
  import opened Merge
  import opened Lookup
  import opened Labels

  ghost predicate IsSubdomain(d: Key, p: Key) {
    exists a :: a != [] && d == Under(a, p)
  }

  /** p is listed together with its subdomains. */
  ghost predicate ListsBelow(m: map<Key, Entry>, p: Key) {
    Reverse(p) in m && m[Reverse(p)].mode == MatchPrefix
  }

  /** A cover of a domain's key is the key of an ancestor listed with subdomains. */
  lemma {:induction false} CoverIsAncestor(m: map<Key, Entry>, d: Key, i: nat) returns (p: Key)
    requires Clean(d) && IsCover(m, Reverse(d), i)
    ensures p != [] && Clean(p) && IsSubdomain(d, p) && ListsBelow(m, p)
    ensures |p| == i && Reverse(p) == Reverse(d)[..i]
  {
    hide Reverse;
    ReverseInvolution(d);
    var rev := Reverse(d);
    var x, y := rev[..i], rev[i + 1..];
    assert rev == Under(x, y);
    assert y != [];
    CleanLeft(x, y);
    CleanRight(x, y);
    ReverseUnder(x, y);
    ReverseInvolution(x);
    ReverseInvolution(y);
    p := Reverse(x);
    assert d == Under(Reverse(y), p);
  }

  lemma {:induction false} AncestorIsCover(m: map<Key, Entry>, d: Key, p: Key)
    requires Clean(d) && Clean(p) && p != [] && IsSubdomain(d, p) && ListsBelow(m, p)
    ensures IsCover(m, Reverse(d), |p|) && Reverse(d)[..|p|] == Reverse(p)
  {
    hide Reverse;
    CoversIsSubdomain(p, d);
    ReverseInvolution(p);
    assert Reverse(d)[..|p|] == Reverse(p);
  }

  /** The nearest ancestor listed with subdomains decides for a domain that is not listed. */
  lemma {:induction false} NearestAncestorDecides(m: map<Key, Entry>, d: Key, p: Key)
    requires Clean(d) && Clean(p) && p != [] && IsSubdomain(d, p)
    requires Reverse(d) !in m && ListsBelow(m, p)
    requires forall q :: Clean(q) && IsSubdomain(d, q) && |p| < |q| ==> !ListsBelow(m, q)
    ensures Answer(m, Reverse(d)) == m[Reverse(p)].action
  {
    hide Reverse;
    AncestorIsCover(m, d, p);
    forall j | |p| < j < |Reverse(d)|
      ensures !IsCover(m, Reverse(d), j)
    {
      if IsCover(m, Reverse(d), j) {
        var q := CoverIsAncestor(m, d, j);
      }
    }
    LongestCoverUnique(m, Reverse(d), |p|);
  }

  lemma {:induction false} UnlistedPasses(m: map<Key, Entry>, d: Key)
    requires Clean(d) && Reverse(d) !in m
    requires forall q :: Clean(q) && IsSubdomain(d, q) ==> !ListsBelow(m, q)
    ensures Answer(m, Reverse(d)) == Pass
  {
    hide Reverse;
    forall j | 0 < j < |Reverse(d)|
      ensures !IsCover(m, Reverse(d), j)
    {
      if IsCover(m, Reverse(d), j) {
        var q := CoverIsAncestor(m, d, j);
      }
    }
    LongestCoverUnique(m, Reverse(d), 0);
  }

  /** Operator override, on domains: when the last source prunes and lists p with its
      subdomains, p and all of them resolve to its action. */
  lemma {:induction false} OverrideHoldsBelow(srcs: seq<RunSource>, m: map<Key, Entry>, p: Key, d: Key)
    requires srcs != [] && srcs[|srcs| - 1].prune && Record(Reverse(p), MatchPrefix) in srcs[|srcs| - 1].recs
    requires SortedRuns(srcs) && IsMergeMap(srcs, m)
    requires Clean(p) && Clean(d) && p != [] && d != [] && (d == p || IsSubdomain(d, p))
    ensures Answer(m, Reverse(d)) == srcs[|srcs| - 1].action
  {
    hide Reverse, Answer;
    ReverseInvolution(p);
    if d != p {
      CoversIsSubdomain(p, d);
    }
    OperatorOverride(srcs, m, Reverse(p), Reverse(d));
  }
}
