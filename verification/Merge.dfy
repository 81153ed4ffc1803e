// The k-way merge of sorted runs (mergeResolve in matcher.go): the last source holding a key
// wins it, and a key is dropped when a later pruning source won one of its strict ancestors.
module Merge {
  import opened Bytes
  import opened Actions

  datatype Record = Record(key: Key, mode: MatchMode)

  /** A run: recs is what successive calls of Next yield. */
  datatype RunSource = RunSource(recs: seq<Record>, action: Action, prune: bool)

  datatype Cursor = Cursor(key: Key, mode: MatchMode, ok: bool)
  datatype Frame = Frame(key: Key, src: nat)
  datatype Emitted = Emitted(key: Key, entry: Entry)

  // ---------------------------------------------------------------- what the merge promises

  ghost predicate Ascending(recs: seq<Record>) {
    forall i, j :: 0 <= i < j < |recs| ==> Less(recs[i].key, recs[j].key)
  }

  ghost predicate SortedRuns(srcs: seq<RunSource>) {
    forall i :: 0 <= i < |srcs| ==> Ascending(srcs[i].recs)
  }

  ghost predicate HasKey(recs: seq<Record>, k: Key) {
    exists r :: 0 <= r < |recs| && recs[r].key == k
  }

  /** The largest index below n of a source that holds k, or -1. */
  ghost function WinnerBelow(srcs: seq<RunSource>, n: nat, k: Key): (w: int)
    requires n <= |srcs|
    ensures -1 <= w < n
    ensures w >= 0 ==> HasKey(srcs[w].recs, k)
    ensures forall i :: w < i < n ==> !HasKey(srcs[i].recs, k)
  {
    if n == 0 then -1
    else if HasKey(srcs[n - 1].recs, k) then n - 1
    else WinnerBelow(srcs, n - 1, k)
  }

  ghost function Winner(srcs: seq<RunSource>, k: Key): (w: int)
    ensures -1 <= w < |srcs|
    ensures w >= 0 ==> HasKey(srcs[w].recs, k)
    ensures forall i :: w < i < |srcs| ==> !HasKey(srcs[i].recs, k)
  {
    WinnerBelow(srcs, |srcs|, k)
  }

  lemma {:induction false} WinnerUnique(srcs: seq<RunSource>, k: Key, w: int)
    requires -1 <= w < |srcs| && (w >= 0 ==> HasKey(srcs[w].recs, k))
    requires forall i :: w < i < |srcs| ==> !HasKey(srcs[i].recs, k)
    ensures w == Winner(srcs, k)
  {
    var v := Winner(srcs, k);
  }

  /** A pruning source won k. */
  ghost predicate PruneKey(srcs: seq<RunSource>, k: Key) {
    Winner(srcs, k) >= 0 && srcs[Winner(srcs, k)].prune
  }

  ghost predicate Overrides(srcs: seq<RunSource>, p: Key, k: Key) {
    LabelCovers(p, k) && PruneKey(srcs, p) && Winner(srcs, p) > Winner(srcs, k)
  }

  ghost predicate Survives(srcs: seq<RunSource>, k: Key) {
    Winner(srcs, k) >= 0 && forall p :: !Overrides(srcs, p, k)
  }

  /** e is the winner's entry for a surviving key. */
  ghost predicate Rightful(srcs: seq<RunSource>, e: Emitted) {
    && Survives(srcs, e.key)
    && e.entry.action == srcs[Winner(srcs, e.key)].action
    && Record(e.key, e.entry.mode) in srcs[Winner(srcs, e.key)].recs
  }

  /** Exactly the surviving keys, strictly ascending, each with its winner's entry. */
  ghost predicate IsMerge(srcs: seq<RunSource>, out: seq<Emitted>) {
    && (forall i, j :: 0 <= i < j < |out| ==> Less(out[i].key, out[j].key))
    && (forall i :: 0 <= i < |out| ==> Rightful(srcs, out[i]))
    && (forall k :: Survives(srcs, k) ==> exists i :: 0 <= i < |out| && out[i].key == k)
  }

  // ---------------------------------------------------------------- how far the merge has come

  /** k sorts no later than the last key taken out of the runs. */
  ghost predicate Passed(k: Key, last: Option<Key>) {
    last.Some? && (k == last.value || Less(k, last.value))
  }

  /** The cursor shows the first record of the run that is not passed. */
  ghost predicate Positioned(recs: seq<Record>, cur: Cursor, taken: nat, last: Option<Key>) {
    && taken <= |recs|
    && (cur.ok ==> 1 <= taken && recs[taken - 1] == Record(cur.key, cur.mode) && !Passed(cur.key, last))
    && (!cur.ok ==> taken == |recs|)
    && (forall r :: 0 <= r < (if cur.ok then taken - 1 else taken) ==> Passed(recs[r].key, last))
  }

  ghost predicate AllPositioned(srcs: seq<RunSource>, curs: seq<Cursor>, taken: seq<nat>, last: Option<Key>) {
    && |curs| == |taken| == |srcs|
    && (forall i :: 0 <= i < |srcs| ==> Positioned(srcs[i].recs, curs[i], taken[i], last))
  }

  ghost predicate IsLeast(curs: seq<Cursor>, key: Key) {
    forall i :: 0 <= i < |curs| && curs[i].ok ==> curs[i].key == key || Less(key, curs[i].key)
  }

  /** Every key of the run is passed, or shown by the cursor, or further on. */
  lemma {:induction false} Frontier(recs: seq<Record>, cur: Cursor, taken: nat, last: Option<Key>, k: Key)
    requires Ascending(recs) && Positioned(recs, cur, taken, last) && HasKey(recs, k)
    ensures Passed(k, last) || (cur.ok && (k == cur.key || Less(cur.key, k)))
  {
    var r :| 0 <= r < |recs| && recs[r].key == k;
    if cur.ok && taken - 1 < r {
      assert Less(recs[taken - 1].key, recs[r].key);
    }
  }

  lemma {:induction false} CursorHolds(recs: seq<Record>, cur: Cursor, taken: nat, last: Option<Key>, key: Key)
    requires Ascending(recs) && Positioned(recs, cur, taken, last)
    requires !Passed(key, last) && (cur.ok ==> cur.key == key || Less(key, cur.key))
    ensures HasKey(recs, key) <==> cur.ok && cur.key == key
  {
    if cur.ok && cur.key == key {
      assert recs[taken - 1].key == key;
    }
    if HasKey(recs, key) {
      Frontier(recs, cur, taken, last, key);
      if cur.ok && Less(cur.key, key) {
        LessAsymmetric(cur.key, key);
      }
    }
  }

  /** No key of any run lies strictly between the last key and the least cursor. */
  lemma {:induction false} NothingBetween(srcs: seq<RunSource>, curs: seq<Cursor>, taken: seq<nat>, last: Option<Key>, key: Key, k: Key)
    requires SortedRuns(srcs) && AllPositioned(srcs, curs, taken, last) && IsLeast(curs, key)
    requires Winner(srcs, k) >= 0 && Less(k, key)
    ensures Passed(k, last)
  {
    var w := Winner(srcs, k);
    Frontier(srcs[w].recs, curs[w], taken[w], last, k);
    if !Passed(k, last) {
      assert curs[w].ok && (curs[w].key == key || Less(key, curs[w].key));
      assert k == curs[w].key || Less(curs[w].key, k);
      LessAsymmetric(k, key);
      if curs[w].key != key && k != curs[w].key {
        LessTransitive(key, curs[w].key, k);
      }
    }
  }

  // ---------------------------------------------------------------- the prune stack

  /** The stack is a chain of prefixes, and holds every passed pruning key that is
      a byte prefix of the last key. */
  ghost predicate StackHolds(srcs: seq<RunSource>, stack: seq<Frame>, last: Option<Key>) {
    && (forall i :: 0 <= i < |stack| ==>
          Passed(stack[i].key, last) && PruneKey(srcs, stack[i].key) && stack[i].src == Winner(srcs, stack[i].key))
    && (forall i, j :: 0 <= i < j < |stack| ==> stack[i].key <= stack[j].key)
    && (forall p :: last.Some? && PruneKey(srcs, p) && Passed(p, last) && p <= last.value ==>
          Frame(p, Winner(srcs, p)) in stack)
  }

  /** Pops the frames that are no byte prefix of key. */
  method PopFrames(stack: seq<Frame>, key: Key) returns (kept: seq<Frame>)
    ensures kept <= stack
    ensures kept != [] ==> kept[|kept| - 1].key <= key
    ensures forall i :: |kept| <= i < |stack| ==> !(stack[i].key <= key)
  {
    kept := stack;
    while |kept| > 0 && !(kept[|kept| - 1].key <= key)
      invariant kept <= stack
      invariant forall i :: |kept| <= i < |stack| ==> !(stack[i].key <= key)
    {
      kept := kept[..|kept| - 1];
    }
  }

  /** Popping on byte prefixes loses no frame that could still cover a key: the keys
      that have p as a prefix are an interval, and the merge has reached it or passed it. */
  lemma {:induction false} PoppedStackHolds(srcs: seq<RunSource>, curs: seq<Cursor>, taken: seq<nat>,
                         stack: seq<Frame>, kept: seq<Frame>, last: Option<Key>, key: Key, p: Key)
    requires SortedRuns(srcs) && AllPositioned(srcs, curs, taken, last) && IsLeast(curs, key)
    requires StackHolds(srcs, stack, last) && kept <= stack && !Passed(key, last)
    requires forall i :: |kept| <= i < |stack| ==> !(stack[i].key <= key)
    requires PruneKey(srcs, p) && p < key
    ensures Frame(p, Winner(srcs, p)) in kept
  {
    PrefixLess(p, key);
    NothingBetween(srcs, curs, taken, last, key, p);
    LessTotal(key, last.value);
    PrefixInterval(p, last.value, key);
    var i :| 0 <= i < |stack| && stack[i] == Frame(p, Winner(srcs, p));
    assert i < |kept|;
    assert kept[i] == stack[i];
  }

  /** Does a frame of a later source cover the key at a label boundary? */
  method IsPruned(stack: seq<Frame>, winner: nat, key: Key) returns (pruned: bool)
    ensures pruned <==> exists i :: 0 <= i < |stack| && stack[i].src > winner && LabelCovers(stack[i].key, key)
  {
    pruned := false;
    for i := 0 to |stack|
      invariant !pruned
      invariant forall j :: 0 <= j < i ==> !(stack[j].src > winner && LabelCovers(stack[j].key, key))
    {
      if stack[i].src > winner && LabelCovers(stack[i].key, key) {
        pruned := true;
        break;
      }
    }
  }

  lemma {:induction false} PrunedIsOverridden(srcs: seq<RunSource>, curs: seq<Cursor>, taken: seq<nat>,
                           stack: seq<Frame>, kept: seq<Frame>, last: Option<Key>, key: Key, winner: nat, pruned: bool)
    requires SortedRuns(srcs) && AllPositioned(srcs, curs, taken, last) && IsLeast(curs, key)
    requires StackHolds(srcs, stack, last) && kept <= stack && !Passed(key, last)
    requires forall i :: |kept| <= i < |stack| ==> !(stack[i].key <= key)
    requires winner == Winner(srcs, key)
    requires pruned <==> exists i :: 0 <= i < |kept| && kept[i].src > winner && LabelCovers(kept[i].key, key)
    ensures pruned <==> !Survives(srcs, key)
  {
    if pruned {
      var i :| 0 <= i < |kept| && kept[i].src > winner && LabelCovers(kept[i].key, key);
      assert kept[i] == stack[i];
      assert Overrides(srcs, kept[i].key, key);
    }
    forall p | Overrides(srcs, p, key)
      ensures pruned
    {
      PoppedStackHolds(srcs, curs, taken, stack, kept, last, key, p);
      var i :| 0 <= i < |kept| && kept[i] == Frame(p, Winner(srcs, p));
      assert kept[i].src > winner && LabelCovers(kept[i].key, key);
    }
  }

  lemma {:induction false} KeptFrames(srcs: seq<RunSource>, stack: seq<Frame>, kept: seq<Frame>, last: Option<Key>, key: Key)
    requires StackHolds(srcs, stack, last) && kept <= stack && !Passed(key, last)
    requires kept != [] ==> kept[|kept| - 1].key <= key
    ensures forall i :: 0 <= i < |kept| ==>
              && kept[i].key <= key && Passed(kept[i].key, Some(key))
              && PruneKey(srcs, kept[i].key) && kept[i].src == Winner(srcs, kept[i].key)
    ensures forall i, j :: 0 <= i < j < |kept| ==> kept[i].key <= kept[j].key
  {
    hide PruneKey;
    forall i | 0 <= i < |kept|
      ensures kept[i] == stack[i] && Passed(kept[i].key, Some(key)) && kept[i].key <= key
    {
      assert kept[i] == stack[i];
      LessTotal(key, last.value);
      if kept[i].key != last.value && last.value != key {
        LessTransitive(kept[i].key, last.value, key);
      }
      var top := |kept| - 1;
      assert kept[top] == stack[top];
      assert i < top ==> stack[i].key <= stack[top].key;
    }
  }

  lemma {:induction false} PushedStackHolds(srcs: seq<RunSource>, curs: seq<Cursor>, taken: seq<nat>,
                         stack: seq<Frame>, kept: seq<Frame>, last: Option<Key>, key: Key, winner: nat)
    requires SortedRuns(srcs) && AllPositioned(srcs, curs, taken, last) && IsLeast(curs, key)
    requires StackHolds(srcs, stack, last) && kept <= stack && !Passed(key, last)
    requires kept != [] ==> kept[|kept| - 1].key <= key
    requires forall i :: |kept| <= i < |stack| ==> !(stack[i].key <= key)
    requires winner == Winner(srcs, key)
    ensures StackHolds(srcs, if srcs[winner].prune then kept + [Frame(key, winner)] else kept, Some(key))
  {
    var next := if srcs[winner].prune then kept + [Frame(key, winner)] else kept;
    KeptFrames(srcs, stack, kept, last, key);
    forall p | PruneKey(srcs, p) && Passed(p, Some(key)) && p <= key
      ensures Frame(p, Winner(srcs, p)) in next
    {
      if p != key {
        PoppedStackHolds(srcs, curs, taken, stack, kept, last, key, p);
      } else {
        assert next[|kept|] == Frame(key, winner);
      }
    }
    hide StackHolds;
    ChainExtends(srcs, kept, key, winner);
    StackHoldsNext(srcs, next, key);
  }

  lemma {:induction false} ChainExtends(srcs: seq<RunSource>, kept: seq<Frame>, key: Key, winner: nat)
    requires winner == Winner(srcs, key)
    requires forall i :: 0 <= i < |kept| ==>
               && kept[i].key <= key && Passed(kept[i].key, Some(key))
               && PruneKey(srcs, kept[i].key) && kept[i].src == Winner(srcs, kept[i].key)
    requires forall i, j :: 0 <= i < j < |kept| ==> kept[i].key <= kept[j].key
    ensures var next := if srcs[winner].prune then kept + [Frame(key, winner)] else kept;
            && (forall i :: 0 <= i < |next| ==>
                  Passed(next[i].key, Some(key)) && PruneKey(srcs, next[i].key) && next[i].src == Winner(srcs, next[i].key))
            && (forall i, j :: 0 <= i < j < |next| ==> next[i].key <= next[j].key)
  {
    assert srcs[winner].prune ==> PruneKey(srcs, key);
    assert Passed(key, Some(key));
    hide PruneKey, Passed, Winner;
    var next := if srcs[winner].prune then kept + [Frame(key, winner)] else kept;
    assert forall i :: 0 <= i < |next| ==> next[i] == if i < |kept| then kept[i] else Frame(key, winner);
  }

  lemma {:induction false} StackHoldsNext(srcs: seq<RunSource>, next: seq<Frame>, key: Key)
    requires forall i :: 0 <= i < |next| ==>
               Passed(next[i].key, Some(key)) && PruneKey(srcs, next[i].key) && next[i].src == Winner(srcs, next[i].key)
    requires forall i, j :: 0 <= i < j < |next| ==> next[i].key <= next[j].key
    requires forall p :: PruneKey(srcs, p) && Passed(p, Some(key)) && p <= key ==> Frame(p, Winner(srcs, p)) in next
    ensures StackHolds(srcs, next, Some(key))
  {
  }

  // ---------------------------------------------------------------- the cursors

  /** One call of the source's Next. */
  method Advance(srcs: seq<RunSource>, i: nat, curs: array<Cursor>, taken: array<nat>)
    requires curs.Length == taken.Length == |srcs| && i < |srcs| && taken[i] <= |srcs[i].recs|
    modifies curs, taken
    ensures forall j :: 0 <= j < |srcs| && j != i ==> curs[j] == old(curs[j]) && taken[j] == old(taken[j])
    ensures (curs[i], taken[i]) == Stepped(srcs[i].recs, old(taken[i]))
  {
    if taken[i] < |srcs[i].recs| {
      var rec := srcs[i].recs[taken[i]];
      curs[i] := Cursor(rec.key, rec.mode, true);
      taken[i] := taken[i] + 1;
    } else {
      curs[i] := Cursor([], MatchNone, false);
    }
  }

  ghost function Stepped(recs: seq<Record>, taken: nat): (Cursor, nat)
    requires taken <= |recs|
  {
    if taken < |recs| then (Cursor(recs[taken].key, recs[taken].mode, true), taken + 1)
    else (Cursor([], MatchNone, false), taken)
  }

  lemma {:induction false} SteppedIsPositioned(recs: seq<Record>, cur: Cursor, taken: nat, last: Option<Key>, key: Key)
    requires Ascending(recs) && Positioned(recs, cur, taken, last)
    requires !Passed(key, last) && (cur.ok ==> cur.key == key || Less(key, cur.key))
    ensures cur.ok && cur.key == key ==> Positioned(recs, Stepped(recs, taken).0, Stepped(recs, taken).1, Some(key))
    ensures !(cur.ok && cur.key == key) ==> Positioned(recs, cur, taken, Some(key))
  {
    forall r | 0 <= r < taken && Passed(recs[r].key, last)
      ensures Passed(recs[r].key, Some(key))
    {
      LessTotal(key, last.value);
      if recs[r].key != last.value {
        LessTransitive(recs[r].key, last.value, key);
      }
    }
    if cur.ok && Less(key, cur.key) {
      LessAsymmetric(key, cur.key);
    }
    if cur.ok && cur.key == key && taken < |recs| {
      assert Less(recs[taken - 1].key, recs[taken].key);
      LessAsymmetric(key, recs[taken].key);
    }
  }

  method FindBest(curs: array<Cursor>) returns (best: int)
    ensures -1 <= best < curs.Length
    ensures best < 0 ==> forall i :: 0 <= i < curs.Length ==> !curs[i].ok
    ensures best >= 0 ==> curs[best].ok && IsLeast(curs[..], curs[best].key)
  {
    best := -1;
    for i := 0 to curs.Length
      invariant -1 <= best < i
      invariant best < 0 ==> forall j :: 0 <= j < i ==> !curs[j].ok
      invariant best >= 0 ==> curs[best].ok
      invariant best >= 0 ==> forall j :: 0 <= j < i && curs[j].ok ==>
                  curs[j].key == curs[best].key || Less(curs[best].key, curs[j].key)
    {
      if curs[i].ok && (best < 0 || Less(curs[i].key, curs[best].key)) {
        forall j | 0 <= j < i && curs[j].ok
          ensures Less(curs[i].key, curs[j].key)
        {
          if curs[j].key != curs[best].key {
            LessTransitive(curs[i].key, curs[best].key, curs[j].key);
          }
        }
        best := i;
      } else if curs[i].ok {
        LessTotal(curs[i].key, curs[best].key);
      }
    }
  }

  method FindWinner(curs: array<Cursor>, key: Key) returns (winner: int)
    ensures -1 <= winner < curs.Length
    ensures winner >= 0 ==> curs[winner].ok && curs[winner].key == key
    ensures forall i :: winner < i < curs.Length ==> !(curs[i].ok && curs[i].key == key)
  {
    winner := -1;
    for i := 0 to curs.Length
      invariant -1 <= winner < i
      invariant winner >= 0 ==> curs[winner].ok && curs[winner].key == key
      invariant forall j :: winner < j < i ==> !(curs[j].ok && curs[j].key == key)
    {
      if curs[i].ok && curs[i].key == key {
        winner := i;
      }
    }
  }

  /** Moves every cursor off the key. */
  method AdvanceAll(srcs: seq<RunSource>, curs: array<Cursor>, taken: array<nat>, ghost last: Option<Key>, key: Key)
    requires curs != taken as object && curs.Length == taken.Length == |srcs|
    requires SortedRuns(srcs) && AllPositioned(srcs, curs[..], taken[..], last)
    requires IsLeast(curs[..], key) && !Passed(key, last)
    modifies curs, taken
    ensures AllPositioned(srcs, curs[..], taken[..], Some(key))
  {
    for i := 0 to curs.Length
      invariant forall j :: 0 <= j < i ==> Positioned(srcs[j].recs, curs[j], taken[j], Some(key))
      invariant forall j :: i <= j < curs.Length ==> curs[j] == old(curs[j]) && taken[j] == old(taken[j])
    {
      assert old(Positioned(srcs[i].recs, curs[..][i], taken[..][i], last));
      assert curs[i] == old(curs[..])[i];
      SteppedIsPositioned(srcs[i].recs, curs[i], taken[i], last, key);
      if curs[i].ok && curs[i].key == key {
        Advance(srcs, i, curs, taken);
      }
    }
  }

  lemma {:induction false} WinnerFound(srcs: seq<RunSource>, curs: seq<Cursor>, taken: seq<nat>, last: Option<Key>, key: Key, w: int)
    requires SortedRuns(srcs) && AllPositioned(srcs, curs, taken, last) && IsLeast(curs, key) && !Passed(key, last)
    requires -1 <= w < |srcs| && (w >= 0 ==> curs[w].ok && curs[w].key == key)
    requires forall i :: w < i < |srcs| ==> !(curs[i].ok && curs[i].key == key)
    ensures w == Winner(srcs, key)
    ensures w >= 0 ==> Record(key, curs[w].mode) in srcs[w].recs
  {
    forall i | 0 <= i < |srcs|
      ensures HasKey(srcs[i].recs, key) <==> curs[i].ok && curs[i].key == key
    {
      CursorHolds(srcs[i].recs, curs[i], taken[i], last, key);
    }
    WinnerUnique(srcs, key, w);
  }

  // ---------------------------------------------------------------- the merge itself

  /** Everything emitted so far is right, and nothing up to the last key is missing. */
  ghost predicate OutHolds(srcs: seq<RunSource>, out: seq<Emitted>, last: Option<Key>) {
    && (forall i, j :: 0 <= i < j < |out| ==> Less(out[i].key, out[j].key))
    && (forall i :: 0 <= i < |out| ==> Rightful(srcs, out[i]) && Passed(out[i].key, last))
    && (forall k :: Survives(srcs, k) && Passed(k, last) ==> exists i :: 0 <= i < |out| && out[i].key == k)
  }

  lemma {:induction false} OutHoldsNext(srcs: seq<RunSource>, curs: seq<Cursor>, taken: seq<nat>,
                     out: seq<Emitted>, out': seq<Emitted>, last: Option<Key>, key: Key, e: Emitted)
    requires SortedRuns(srcs) && AllPositioned(srcs, curs, taken, last) && IsLeast(curs, key) && !Passed(key, last)
    requires OutHolds(srcs, out, last)
    requires e.key == key
    requires Survives(srcs, key) ==> Rightful(srcs, e)
    requires out' == if Survives(srcs, key) then out + [e] else out
    ensures OutHolds(srcs, out', Some(key))
  {
    hide Survives, Rightful;
    forall i | 0 <= i < |out|
      ensures Less(out[i].key, key)
    {
      assert Passed(out[i].key, last);
      LessTotal(key, last.value);
      if out[i].key != last.value {
        LessTransitive(out[i].key, last.value, key);
      }
    }
    forall k | Survives(srcs, k) && Passed(k, Some(key))
      ensures exists i :: 0 <= i < |out'| && out'[i].key == k
    {
      if k == key {
        assert out'[|out|] == e;
      } else {
        SurvivorHasWinner(srcs, k);
        NothingBetween(srcs, curs, taken, last, key, k);
        var i :| 0 <= i < |out| && out[i].key == k;
        assert out'[i] == out[i];
      }
    }
  }

  lemma {:induction false} SurvivorHasWinner(srcs: seq<RunSource>, k: Key)
    requires Survives(srcs, k)
    ensures Winner(srcs, k) >= 0
  {
  }

  ghost function AllKeys(srcs: seq<RunSource>): set<Key> {
    set i, r | 0 <= i < |srcs| && 0 <= r < |srcs[i].recs| :: srcs[i].recs[r].key
  }

  /** The keys still to come. */
  ghost function KeysLeft(srcs: seq<RunSource>, last: Option<Key>): set<Key> {
    set k | k in AllKeys(srcs) && !Passed(k, last)
  }

  lemma {:induction false} FewerKeysLeft(srcs: seq<RunSource>, last: Option<Key>, key: Key)
    requires Winner(srcs, key) >= 0 && !Passed(key, last)
    ensures KeysLeft(srcs, Some(key)) < KeysLeft(srcs, last)
  {
    assert HasKey(srcs[Winner(srcs, key)].recs, key);
    assert key in KeysLeft(srcs, last) && key !in KeysLeft(srcs, Some(key));
    forall k | k in KeysLeft(srcs, Some(key))
      ensures k in KeysLeft(srcs, last)
    {
      if Passed(k, last) {
        LessTotal(key, last.value);
        if k != last.value {
          LessTransitive(k, last.value, key);
        }
      }
    }
  }

  lemma {:induction false} MergeDone(srcs: seq<RunSource>, curs: seq<Cursor>, taken: seq<nat>, out: seq<Emitted>, last: Option<Key>)
    requires AllPositioned(srcs, curs, taken, last) && OutHolds(srcs, out, last)
    requires forall i :: 0 <= i < |curs| ==> !curs[i].ok
    ensures IsMerge(srcs, out)
  {
    forall k | Survives(srcs, k)
      ensures Passed(k, last)
    {
      var w := Winner(srcs, k);
      assert Positioned(srcs[w].recs, curs[w], taken[w], last);
      var r :| 0 <= r < |srcs[w].recs| && srcs[w].recs[r].key == k;
    }
  }

  /** One turn of the merge's loop keeps stack and emissions right and uses up a key. */
  lemma {:induction false} TurnHolds(srcs: seq<RunSource>, curs: seq<Cursor>, taken: seq<nat>, stack: seq<Frame>, kept: seq<Frame>,
                  out: seq<Emitted>, last: Option<Key>, key: Key, winner: nat, pruned: bool, mode: MatchMode)
    requires SortedRuns(srcs) && AllPositioned(srcs, curs, taken, last) && IsLeast(curs, key) && !Passed(key, last)
    requires StackHolds(srcs, stack, last) && OutHolds(srcs, out, last)
    requires kept <= stack && (kept != [] ==> kept[|kept| - 1].key <= key)
    requires forall i :: |kept| <= i < |stack| ==> !(stack[i].key <= key)
    requires winner < |srcs| && winner == Winner(srcs, key) && Record(key, mode) in srcs[winner].recs
    requires pruned <==> exists i :: 0 <= i < |kept| && kept[i].src > winner && LabelCovers(kept[i].key, key)
    ensures StackHolds(srcs, if srcs[winner].prune then kept + [Frame(key, winner)] else kept, Some(key))
    ensures OutHolds(srcs, if pruned then out else out + [Emitted(key, Entry(srcs[winner].action, mode))], Some(key))
    ensures KeysLeft(srcs, Some(key)) < KeysLeft(srcs, last)
  {
    var e := Emitted(key, Entry(srcs[winner].action, mode));
    PrunedIsOverridden(srcs, curs, taken, stack, kept, last, key, winner, pruned);
    assert Survives(srcs, key) ==> Rightful(srcs, e);
    hide StackHolds, OutHolds, Survives, Rightful, KeysLeft, Winner, PruneKey, AllPositioned, SortedRuns, IsLeast, Passed;
    PushedStackHolds(srcs, curs, taken, stack, kept, last, key, winner);
    OutHoldsNext(srcs, curs, taken, out, if pruned then out else out + [e], last, key, e);
    FewerKeysLeft(srcs, last, key);
  }

  /** The cursors before the first key: each shows its run's first record. */
  method FirstCursors(srcs: seq<RunSource>) returns (curs: array<Cursor>, taken: array<nat>)
    ensures fresh(curs) && fresh(taken) && curs != taken as object
    ensures AllPositioned(srcs, curs[..], taken[..], None)
  {
    curs := new Cursor[|srcs|](_ => Cursor([], MatchNone, false));
    taken := new nat[|srcs|](_ => 0);
    for i := 0 to |srcs|
      invariant forall j :: 0 <= j < i ==> Positioned(srcs[j].recs, curs[j], taken[j], None)
      invariant forall j :: i <= j < |srcs| ==> taken[j] == 0
    {
      Advance(srcs, i, curs, taken);
    }
  }

  method MergeResolve(srcs: seq<RunSource>) returns (out: seq<Emitted>, n: nat)
    requires SortedRuns(srcs)
    ensures IsMerge(srcs, out) && n == |out|
  {
    var curs, taken := FirstCursors(srcs);
    ghost var last: Option<Key> := None;
    var prune: seq<Frame> := [];
    out, n := [], 0;
    while true
      invariant AllPositioned(srcs, curs[..], taken[..], last)
      invariant StackHolds(srcs, prune, last)
      invariant OutHolds(srcs, out, last) && n == |out|
      decreases KeysLeft(srcs, last)
    {
      hide StackHolds, OutHolds, Survives, KeysLeft, Winner, PruneKey, IsMerge, IsLeast, Rightful, SortedRuns, Passed;
      var best := FindBest(curs);
      if best < 0 {
        MergeDone(srcs, curs[..], taken[..], out, last);
        break;
      }
      var key := curs[best].key;
      assert curs[..][best].ok;
      var winner := FindWinner(curs, key);
      WinnerFound(srcs, curs[..], taken[..], last, key, winner);
      var mode := curs[winner].mode;

      var kept := PopFrames(prune, key);
      var pruned := IsPruned(kept, winner, key);
      TurnHolds(srcs, curs[..], taken[..], prune, kept, out, last, key, winner, pruned, mode);
      if !pruned {
        out := out + [Emitted(key, Entry(srcs[winner].action, mode))];
        n := n + 1;
      }
      prune := kept;
      if srcs[winner].prune {
        prune := prune + [Frame(key, winner)];
      }
      AdvanceAll(srcs, curs, taken, last, key);
      last := Some(key);
    }
  }
}
