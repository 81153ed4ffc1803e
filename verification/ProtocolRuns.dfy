// What the invariant means for whole runs of the mapping protocol: no address has two owners,
// deletion never touches a live mapping, and a fake address stays mapped for its whole lease.
module ProtocolRuns {
  import opened Bytes
  import opened Pool
  import opened Protocol
  import opened ProtocolSafety

  ghost predicate Run(tr: seq<State>, ttl: nat) {
    tr != [] && forall i :: 0 <= i < |tr| - 1 ==> Next(tr[i], tr[i + 1], ttl)
  }

  ghost predicate Reaches(s: State, s': State, ttl: nat) {
    exists tr :: Run(tr, ttl) && tr[0] == s && tr[|tr| - 1] == s'
  }

  /** No cutoff is later than the clock allows. */
  ghost predicate CutInv(s: State, ttl: nat) {
    s.clean.Cutting? ==> s.clean.cutoff <= s.now - ttl
  }

  lemma {:induction false} RunKeepsInv(tr: seq<State>, ttl: nat, i: nat)
    requires Run(tr, ttl) && Inv(tr[0]) && CutInv(tr[0], ttl) && i < |tr|
    ensures Inv(tr[i]) && CutInv(tr[i], ttl)
    decreases i
  {
    hide Inv, CutInv, Next;
    if 0 < i {
      RunKeepsInv(tr, ttl, i - 1);
      NextKeepsInv(tr[i - 1], tr[i], ttl);
    }
  }

  lemma {:induction false} NextKeepsInv(s: State, s': State, ttl: nat)
    requires Inv(s) && CutInv(s, ttl) && Next(s, s', ttl)
    ensures Inv(s') && CutInv(s', ttl)
  {
    hide Inv, AllocateV, ReleaseV;
    var step :| NextBy(s, s', ttl, step);
    StepKeepsInv(s, s', ttl, step);
  }

  // ---------------------------------------------------------------- safety in every reachable state

  /** Two real addresses never share a fake one, and every table entry is in the kernel. */
  lemma {:induction false} TableMatchesKernel(s: State, r: u32, r': u32)
    requires Inv(s) && r in s.table
    ensures s.table[r].fake in s.kernel && s.kernel[s.table[r].fake] == r
    ensures r' in s.table && s.table[r'].fake == s.table[r].fake ==> r' == r
  {
    var f := s.table[r].fake;
    assert Owns(s, ByTable(r), f);
    assert KernelAgrees(s, ByTable(r), f);
    assert r' in s.table && s.table[r'].fake == f ==> Owns(s, ByTable(r'), f);
  }

  /** No Delete batch, first try or retry, names the fake of a live entry or of a flight. */
  lemma {:induction false} DeleteSparesLive(s: State, f: u32)
    requires Inv(s) && s.clean.Deleting? && f in Fakes(s.clean.items)
    ensures forall r :: r in s.table ==> s.table[r].fake != f
    ensures forall r :: r in s.flights ==> FakeOf(s.flights[r]) != Some(f)
  {
    ParkedFakes(s, f);
    var i: nat :| Owns(s, ByClean(i), f);
    forall r | r in s.table && s.table[r].fake == f
      ensures false
    {
      assert Owns(s, ByTable(r), f);
    }
    forall r | r in s.flights && FakeOf(s.flights[r]) == Some(f)
      ensures false
    {
      assert Owns(s, ByFlight(r), f);
    }
  }

  /** set never overwrites an entry. */
  lemma {:induction false} SetOverwritesNothing(s: State, s': State, dest: u32)
    requires Inv(s) && FlightSet(s, s', dest)
    ensures dest !in s.table
  {
    assert s.flights[dest] != Entered;
  }

  /** The address a step gives back to the pool. */
  ghost function Released(s: State, step: Step): Option<u32> {
    match step
    case Releases(dest) => if dest in s.flights then FakeOf(s.flights[dest]) else None
    case CleanReleases => if s.clean.Releasing? && s.clean.rest != [] then Some(s.clean.rest[0].fake) else None
    case _ => None
  }

  /** The address a step takes out of the pool. */
  ghost function Taken(s: State, step: Step): Option<u32> {
    if step.Allocates? then AllocateV(s.pool).1 else None
  }

  /** A step makes an address outstanding exactly by allocating it, and ends that exactly by
      releasing it. */
  lemma {:induction false} StepMovesAddress(s: State, s': State, ttl: nat, step: Step, f: u32)
    requires Inv(s) && NextBy(s, s', ttl, step)
    ensures Taken(s, step) == Some(f) <==> f !in Outstanding(s.pool) && f in Outstanding(s'.pool)
    ensures Released(s, step) == Some(f) <==> f in Outstanding(s.pool) && f !in Outstanding(s'.pool)
  {
    assert PoolInv(s.pool);
    match step {
      case Allocates(dest) =>
        AllocateSpec(s.pool);
      case Releases(dest) =>
        var g := s.flights[dest].fake;
        assert Owns(s, ByFlight(dest), g);
        ReleaseSpec(s.pool, g);
      case CleanReleases =>
        var g := s.clean.rest[0].fake;
        assert Owns(s, ByClean(0), g);
        ReleaseSpec(s.pool, g);
      case _ => assert s'.pool == s.pool;
    }
  }

  /** A released address, whether a flight or a cleaning gives it back, has no kernel entry,
      so the next flight that gets it adds it to a kernel that does not have it. */
  lemma {:induction false} ReleaseIsSafe(s: State, s': State, ttl: nat, step: Step, f: u32)
    requires Inv(s) && NextBy(s, s', ttl, step) && Released(s, step) == Some(f)
    ensures f in Outstanding(s.pool) && f !in Outstanding(s'.pool) && f !in s'.kernel
  {
    StepMovesAddress(s, s', ttl, step, f);
    var o := if step.CleanReleases? then ByClean(0) else ByFlight(step.dest);
    assert Owns(s, o, f) && KernelAgrees(s, o, f);
  }

  /** A run with the steps it takes. */
  ghost predicate RunBy(tr: seq<State>, steps: seq<Step>, ttl: nat) {
    |tr| == |steps| + 1 && forall i :: 0 <= i < |steps| ==> NextBy(tr[i], tr[i + 1], ttl, steps[i])
  }

  lemma {:induction false} StepsKeepInv(tr: seq<State>, steps: seq<Step>, ttl: nat, i: nat)
    requires RunBy(tr, steps, ttl) && Inv(tr[0]) && i < |tr|
    ensures Inv(tr[i])
    decreases i
  {
    hide Inv, NextBy;
    if 0 < i {
      StepsKeepInv(tr, steps, ttl, i - 1);
      StepKeepsInv(tr[i - 1], tr[i], ttl, steps[i - 1]);
    }
  }

  /** An address that becomes outstanding along a run was allocated on the way. */
  lemma {:induction false} AllocatedOnTheWay(tr: seq<State>, steps: seq<Step>, ttl: nat, i: nat, j: nat, f: u32) returns (k: nat)
    requires RunBy(tr, steps, ttl) && Inv(tr[0]) && i <= j < |tr|
    requires f !in Outstanding(tr[i].pool) && f in Outstanding(tr[j].pool)
    ensures i <= k < j && Taken(tr[k], steps[k]) == Some(f)
    decreases j
  {
    hide Inv, NextBy, Outstanding, Taken, Released;
    StepsKeepInv(tr, steps, ttl, j - 1);
    StepMovesAddress(tr[j - 1], tr[j], ttl, steps[j - 1], f);
    if f in Outstanding(tr[j - 1].pool) {
      k := AllocatedOnTheWay(tr, steps, ttl, i, j - 1, f);
    } else {
      k := j - 1;
    }
  }

  lemma {:induction false} ReleasedOnTheWay(tr: seq<State>, steps: seq<Step>, ttl: nat, i: nat, j: nat, f: u32) returns (k: nat)
    requires RunBy(tr, steps, ttl) && Inv(tr[0]) && i <= j < |tr|
    requires f in Outstanding(tr[i].pool) && f !in Outstanding(tr[j].pool)
    ensures i <= k < j && Released(tr[k], steps[k]) == Some(f)
    decreases j
  {
    hide Inv, NextBy, Outstanding, Taken, Released;
    StepsKeepInv(tr, steps, ttl, j - 1);
    StepMovesAddress(tr[j - 1], tr[j], ttl, steps[j - 1], f);
    if f in Outstanding(tr[j - 1].pool) {
      k := j - 1;
    } else {
      k := ReleasedOnTheWay(tr, steps, ttl, i, j - 1, f);
    }
  }

  /** Once released, an address is released again only after another allocation of it. */
  lemma {:induction false} ReleasedOncePerAllocation(tr: seq<State>, steps: seq<Step>, ttl: nat, i: nat, j: nat, f: u32)
    requires RunBy(tr, steps, ttl) && Inv(tr[0]) && i < j < |steps|
    requires Released(tr[i], steps[i]) == Released(tr[j], steps[j]) == Some(f)
    ensures exists k :: i < k < j && Taken(tr[k], steps[k]) == Some(f)
  {
    hide Inv, NextBy, Outstanding, Taken, Released;
    StepsKeepInv(tr, steps, ttl, i);
    StepsKeepInv(tr, steps, ttl, j);
    StepMovesAddress(tr[i], tr[i + 1], ttl, steps[i], f);
    StepMovesAddress(tr[j], tr[j + 1], ttl, steps[j], f);
    var k := AllocatedOnTheWay(tr, steps, ttl, i + 1, j, f);
  }

  /** Once allocated, an address is allocated again only after a release of it. */
  lemma {:induction false} AllocatedOncePerRelease(tr: seq<State>, steps: seq<Step>, ttl: nat, i: nat, j: nat, f: u32)
    requires RunBy(tr, steps, ttl) && Inv(tr[0]) && i < j < |steps|
    requires Taken(tr[i], steps[i]) == Taken(tr[j], steps[j]) == Some(f)
    ensures exists k :: i < k < j && Released(tr[k], steps[k]) == Some(f)
  {
    hide Inv, NextBy, Outstanding, Taken, Released;
    StepsKeepInv(tr, steps, ttl, i);
    StepsKeepInv(tr, steps, ttl, j);
    StepMovesAddress(tr[i], tr[i + 1], ttl, steps[i], f);
    StepMovesAddress(tr[j], tr[j + 1], ttl, steps[j], f);
    var k := ReleasedOnTheWay(tr, steps, ttl, i + 1, j, f);
  }

  lemma {:induction false} AddIsFresh(s: State, s': State, dest: u32)
    requires Inv(s) && FlightAdd(s, s', dest)
    ensures s.flights[dest].fake !in s.kernel
    ensures forall r :: r in s.table ==> s.table[r].fake != s.flights[dest].fake
  {
    var f := s.flights[dest].fake;
    assert Owns(s, ByFlight(dest), f) && KernelAgrees(s, ByFlight(dest), f);
    forall r | r in s.table && s.table[r].fake == f
      ensures false
    {
      assert Owns(s, ByTable(r), f);
    }
  }

  // ---------------------------------------------------------------- leases

  /** dest is mapped to f, was seen no earlier than b, and no lookup under way will say less. */
  ghost predicate Leased(s: State, dest: u32, f: u32, b: int) {
    && dest in s.table && s.table[dest].fake == f && b <= s.table[dest].lastSeen
    && forall id :: id in s.touches && s.touches[id].dest == dest ==> b <= s.touches[id].at
  }

  lemma {:induction false} StepKeepsLease(s: State, s': State, ttl: nat, dest: u32, f: u32, b: int)
    requires Inv(s) && CutInv(s, ttl) && Next(s, s', ttl) && Leased(s, dest, f, b)
    ensures s.now <= s'.now
    ensures s'.now < b + ttl ==> Leased(s', dest, f, b)
  {
    hide PoolInv, Partition, KernelInv, AllocateV, ReleaseV;
    var step :| NextBy(s, s', ttl, step);
    match step {
      case CleanExpires(out) => ExpireKeepsLease(s, s', ttl, out, dest, f, b);
      case Sets(r) => SetKeepsLease(s, s', r, dest, f, b);
      case _ => OtherStepKeepsLease(s, s', ttl, step, dest, f, b);
    }
  }

  lemma {:induction false} ExpireKeepsLease(s: State, s': State, ttl: nat, out: seq<Pair>, dest: u32, f: u32, b: int)
    requires CutInv(s, ttl) && CleanExpire(s, s', out) && Leased(s, dest, f, b)
    ensures s.now == s'.now && (s'.now < b + ttl ==> Leased(s', dest, f, b))
  {
    hide ListsExpired;
  }

  lemma {:induction false} SetKeepsLease(s: State, s': State, r: u32, dest: u32, f: u32, b: int)
    requires LocalInv(s) && FlightSet(s, s', r) && Leased(s, dest, f, b)
    ensures s.now == s'.now && Leased(s', dest, f, b)
  {
    assert r != dest;
  }

  lemma {:induction false} OtherStepKeepsLease(s: State, s': State, ttl: nat, step: Step, dest: u32, f: u32, b: int)
    requires NextBy(s, s', ttl, step) && Leased(s, dest, f, b) && !step.CleanExpires? && !step.Sets?
    requires forall id :: id in s.touches ==> s.touches[id].dest in s.table && s.touches[id].at <= s.now
    requires forall r :: r in s.table ==> s.table[r].lastSeen <= s.now
    ensures s.now <= s'.now && Leased(s', dest, f, b)
  {
    hide AllocateV, ReleaseV;
  }

  /** A lease held at one moment of a run is kept until b + ttl, in the table and the kernel. */
  lemma {:induction false} LeaseHolds(tr: seq<State>, ttl: nat, i: nat, j: nat, dest: u32, f: u32, b: int)
    requires Run(tr, ttl) && Inv(tr[0]) && CutInv(tr[0], ttl)
    requires i <= j < |tr| && Leased(tr[i], dest, f, b)
    requires tr[j].now < b + ttl
    ensures Leased(tr[j], dest, f, b)
    ensures f in tr[j].kernel && tr[j].kernel[f] == dest
    decreases j
  {
    hide Inv, CutInv, Next, Leased;
    RunKeepsInv(tr, ttl, j);
    if i < j {
      RunKeepsInv(tr, ttl, j - 1);
      ClockRuns(tr, ttl, j - 1, j);
      LeaseHolds(tr, ttl, i, j - 1, dest, f, b);
      StepKeepsLease(tr[j - 1], tr[j], ttl, dest, f, b);
    }
    LeasedInKernel(tr[j], dest, f, b);
  }

  lemma {:induction false} LeasedInKernel(s: State, dest: u32, f: u32, b: int)
    requires Inv(s) && Leased(s, dest, f, b)
    ensures f in s.kernel && s.kernel[f] == dest
  {
    TableMatchesKernel(s, dest, dest);
  }

  lemma {:induction false} ClockRuns(tr: seq<State>, ttl: nat, i: nat, j: nat)
    requires Run(tr, ttl) && j == i + 1 && j < |tr|
    ensures tr[i].now <= tr[j].now
  {
    hide AllocateV, ReleaseV;
    var step :| NextBy(tr[i], tr[j], ttl, step);
  }

  /** A new mapping is leased from the moment its flight read the clock. */
  lemma {:induction false} NewMappingLeased(s: State, s': State, dest: u32)
    requires FlightSet(s, s', dest)
    ensures Leased(s', dest, s.flights[dest].fake, s.flights[dest].at)
  {
  }

  /** A looked-up mapping is leased from its clock reading, unless an older lookup of the same
      entry is still to store its own reading. */
  lemma {:induction false} TouchedMappingLeased(s: State, s': State, id: nat)
    requires Inv(s) && TouchStore(s, s', id)
    requires forall k :: k in s.touches && s.touches[k].dest == s.touches[id].dest ==> s.touches[id].at <= s.touches[k].at
    ensures Leased(s', s.touches[id].dest, s.table[s.touches[id].dest].fake, s.touches[id].at)
  {
  }

  // ---------------------------------------------------------------- exactly when a lease holds

  lemma {:induction false} ReachesSelf(s: State, ttl: nat)
    ensures Reaches(s, s, ttl)
  {
    var tr := [s];
    assert Run(tr, ttl) && tr[|tr| - 1] == s;
  }

  lemma {:induction false} ReachesStep(s: State, s': State, s'': State, ttl: nat, step: Step)
    requires Reaches(s, s', ttl) && NextBy(s', s'', ttl, step)
    ensures Reaches(s, s'', ttl)
  {
    hide NextBy;
    var tr :| Run(tr, ttl) && tr[0] == s && tr[|tr| - 1] == s';
    var tr' := tr + [s''];
    forall i | 0 <= i < |tr'| - 1
      ensures Next(tr'[i], tr'[i + 1], ttl)
    {
      if i < |tr| - 1 {
        assert Next(tr[i], tr[i + 1], ttl);
      }
    }
    assert Run(tr', ttl) && tr'[0] == s && tr'[|tr'| - 1] == s'';
  }

  lemma {:induction false} ListingExists(table: map<u32, Lease>, cutoff: int, todo: set<u32>) returns (out: seq<Pair>)
    requires todo <= table.Keys && forall r :: r in todo ==> table[r].lastSeen <= cutoff
    ensures forall i :: 0 <= i < |out| ==> out[i].dest in todo && table[out[i].dest].fake == out[i].fake
    ensures forall i, j :: 0 <= i < j < |out| ==> out[i].dest != out[j].dest
    ensures forall r :: r in todo ==> Pair(r, table[r].fake) in out
    decreases todo
  {
    if todo == {} {
      out := [];
    } else {
      var r :| r in todo;
      var rest := ListingExists(table, cutoff, todo - {r});
      out := [Pair(r, table[r].fake)] + rest;
      assert out[0] == Pair(r, table[r].fake);
      forall q | q in todo
        ensures Pair(q, table[q].fake) in out
      {
        assert q != r ==> Pair(q, table[q].fake) in rest;
      }
    }
  }

  /** Every lookup under way can finish, that of `last` after all the others. */
  lemma {:induction false} DrainTouches(s: State, ttl: nat, last: nat) returns (s': State)
    requires LocalInv(s) && last in s.touches
    ensures Reaches(s, s', ttl) && LocalInv(s')
    ensures s' == s.(table := s'.table, touches := map[])
    ensures s'.table.Keys == s.table.Keys && forall r :: r in s.table ==> s'.table[r].fake == s.table[r].fake
    ensures s'.table[s.touches[last].dest].lastSeen == s.touches[last].at
    decreases |s.touches|
  {
    var id := last;
    if s.touches.Keys != {last} {
      assert s.touches.Keys - {last} != {};
      id :| id in s.touches.Keys - {last};
    }
    var t := s.touches[id];
    var next := s.(table := s.table[t.dest := Lease(s.table[t.dest].fake, t.at)], touches := s.touches - {id});
    assert TouchStore(s, next, id);
    assert LocalInv(next);
    ReachesSelf(s, ttl);
    ReachesStep(s, s, next, ttl, StoresTouch(id));
    if id == last {
      assert next.touches == map[];
      s' := next;
    } else {
      assert |next.touches| == |s.touches| - 1;
      s' := DrainTouches(next, ttl, last);
      ReachesTrans(s, next, s', ttl);
    }
  }

  lemma {:induction false} ReachesTrans(s: State, s': State, s'': State, ttl: nat)
    requires Reaches(s, s', ttl) && Reaches(s', s'', ttl)
    ensures Reaches(s, s'', ttl)
  {
    hide Next;
    var a :| Run(a, ttl) && a[0] == s && a[|a| - 1] == s';
    var b :| Run(b, ttl) && b[0] == s' && b[|b| - 1] == s'';
    var tr := a + b[1..];
    forall i | 0 <= i < |tr| - 1
      ensures Next(tr[i], tr[i + 1], ttl)
    {
      if i < |a| - 1 {
        assert Next(a[i], a[i + 1], ttl);
      } else {
        assert Next(b[i - |a| + 1], b[i - |a| + 2], ttl);
        assert tr[i] == b[i - |a| + 1];
      }
    }
    assert Run(tr, ttl) && tr[0] == s && tr[|tr| - 1] == s'';
  }

  /** Once its last reading is a ttl old, an entry can be expired and deleted at once. */
  lemma {:induction false} ExpireNow(s: State, ttl: nat, dest: u32) returns (s': State)
    requires s.clean == Idle && s.touches == map[] && dest in s.table
    requires s.table[dest].lastSeen <= s.now - ttl
    ensures Reaches(s, s', ttl) && s'.now == s.now && s.table[dest].fake !in s'.kernel
  {
    var cutoff := s.now - ttl;
    var out := ExpiredBatch(s, cutoff, dest);
    var items := s.pending + out;
    hide ListsExpired, Fakes, Reaches;
    var s1 := s.(clean := Cutting(cutoff));
    var s2 := s1.(table := Unexpired(s.table, cutoff), clean := Deleting(items));
    assert items != [];
    assert CleanExpire(s1, s2, out);
    s' := s2.(kernel := s.kernel - Fakes(items), clean := Releasing(items));
    ReachesSelf(s, ttl);
    ReachesStep(s, s, s1, ttl, CleanStarts);
    ReachesStep(s, s1, s2, ttl, CleanExpires(out));
    ReachesStep(s, s2, s', ttl, CleanDeletes);
  }

  lemma {:induction false} ExpiredBatch(s: State, cutoff: int, dest: u32) returns (out: seq<Pair>)
    requires dest in s.table && s.table[dest].lastSeen <= cutoff
    ensures ListsExpired(s.table, cutoff, out) && out != []
    ensures s.table[dest].fake in Fakes(s.pending + out)
  {
    out := ListingExists(s.table, cutoff, set r | r in s.table && s.table[r].lastSeen <= cutoff);
    assert Pair(dest, s.table[dest].fake) in out;
    var i :| 0 <= i < |out| && out[i] == Pair(dest, s.table[dest].fake);
    assert (s.pending + out)[|s.pending| + i] == out[i];
  }

  /** The addresses of a batch can be released to the last. */
  lemma {:induction false} FinishReleasing(s: State, ttl: nat) returns (s': State)
    requires s.clean.Releasing?
    ensures Reaches(s, s', ttl)
    ensures s' == s.(pool := s'.pool, pending := [], clean := Idle)
    decreases |s.clean.rest|
  {
    hide Reaches;
    ReachesSelf(s, ttl);
    if s.clean.rest == [] {
      s' := s.(pending := [], clean := Idle);
      ReachesStep(s, s, s', ttl, CleanEnds);
    } else {
      var next := s.(pool := ReleaseV(s.pool, s.clean.rest[0].fake), clean := Releasing(s.clean.rest[1..]));
      assert CleanRelease(s, next);
      ReachesStep(s, s, next, ttl, CleanReleases);
      s' := FinishReleasing(next, ttl);
      ReachesTrans(s, next, s', ttl);
    }
  }

  /** A deletion can fail without removing anything. */
  lemma {:induction false} FailDeleting(s: State, ttl: nat) returns (s': State)
    requires s.clean.Deleting?
    ensures Reaches(s, s', ttl) && s' == s.(pending := s.clean.items, clean := Idle)
  {
    s' := s.(pending := s.clean.items, clean := Idle);
    assert s.kernel - {} == s.kernel;
    assert CleanDeleteFails(s, s', {});
    hide Reaches;
    ReachesSelf(s, ttl);
    ReachesStep(s, s, s', ttl, CleanFails({}));
  }

  /** A cutoff taken before can expire its entries, dest's among them or not. */
  lemma {:induction false} ExpireAtCutoff(s: State, dest: u32) returns (s': State, out: seq<Pair>)
    requires s.clean.Cutting? && s.touches == map[] && dest in s.table
    ensures CleanExpire(s, s', out)
    ensures s' == s.(table := s'.table, pending := s'.pending, clean := s'.clean)
    ensures s'.clean == Idle || s'.clean.Deleting?
    ensures (s'.clean.Deleting? && s.table[dest].fake in Fakes(s'.clean.items))
            || (dest in s'.table && s'.table[dest] == s.table[dest])
  {
    var cutoff := s.clean.cutoff;
    if s.table[dest].lastSeen <= cutoff {
      out := ExpiredBatch(s, cutoff, dest);
    } else {
      out := ListingExists(s.table, cutoff, set r | r in s.table && s.table[r].lastSeen <= cutoff);
    }
    hide Fakes;
    var items := s.pending + out;
    s' := s.(table := Unexpired(s.table, cutoff), pending := if items == [] then [] else s.pending,
             clean := if items == [] then Idle else Deleting(items));
  }

  lemma {:induction false} FinishCutting(s: State, ttl: nat, dest: u32) returns (s': State)
    requires s.clean.Cutting? && s.touches == map[] && dest in s.table
    ensures Reaches(s, s', ttl) && s'.now == s.now
    ensures s.table[dest].fake !in s'.kernel
            || (s'.clean == Idle && s'.touches == map[] && dest in s'.table && s'.table[dest] == s.table[dest])
  {
    var s1, out := ExpireAtCutoff(s, dest);
    hide Reaches, Fakes, CleanExpire;
    ReachesSelf(s, ttl);
    ReachesStep(s, s, s1, ttl, CleanExpires(out));
    if s1.clean == Idle {
      s' := s1;
    } else if dest in s1.table && s1.table[dest] == s.table[dest] {
      s' := FailDeleting(s1, ttl);
      ReachesTrans(s, s1, s', ttl);
    } else {
      s' := s1.(kernel := s1.kernel - Fakes(s1.clean.items), clean := Releasing(s1.clean.items));
      assert CleanDelete(s1, s');
      ReachesStep(s, s1, s', ttl, CleanDeletes);
    }
  }

  /** Whatever a cleaning is at, it can come to its end with dest's entry as it is, unless it
      takes dest's mapping out of the kernel at once. */
  lemma {:induction false} FinishClean(s: State, ttl: nat, dest: u32) returns (s': State)
    requires s.touches == map[] && dest in s.table
    ensures Reaches(s, s', ttl) && s'.now == s.now
    ensures s.table[dest].fake !in s'.kernel
            || (s'.clean == Idle && s'.touches == map[] && dest in s'.table && s'.table[dest] == s.table[dest])
  {
    hide Reaches;
    match s.clean {
      case Idle =>
        ReachesSelf(s, ttl);
        s' := s;
      case Cutting(_) => s' := FinishCutting(s, ttl, dest);
      case Deleting(_) => s' := FailDeleting(s, ttl);
      case Releasing(_) => s' := FinishReleasing(s, ttl);
    }
  }

  /** An older reading still to be stored can cut the lease short, whatever else goes on. */
  lemma {:induction false} OlderLookupBreaksLease(s: State, ttl: nat, dest: u32, id: nat, t: int) returns (s': State)
    requires LocalInv(s) && dest in s.table
    requires id in s.touches && s.touches[id].dest == dest && s.touches[id].at < t
    requires s.now < t + ttl
    ensures Reaches(s, s', ttl) && s'.now < t + ttl && s.table[dest].fake !in s'.kernel
  {
    hide Reaches;
    var s1 := DrainTouches(s, ttl, id);
    s' := FinishClean(s1, ttl, dest);
    ReachesTrans(s, s1, s', ttl);
    if s.table[dest].fake in s'.kernel {
      var s2 := s';
      var due := s.touches[id].at + ttl;
      var s3 := s2.(now := if s2.now < due then due else s2.now);
      assert Tick(s2, s3);
      ReachesStep(s, s2, s3, ttl, Ticks);
      s' := ExpireNow(s3, ttl, dest);
      ReachesTrans(s, s3, s', ttl);
    }
  }

  /** From any state without lookups under way, two lookups of one entry can come to the
      point where the younger has stored its reading and the older has not; the mapping the
      younger was promised can then go early. */
  lemma {:induction false} LeaseCanBreak(s: State, ttl: nat, dest: u32) returns (mid: State, s': State)
    requires Inv(s) && s.touches == map[] && dest in s.table && 0 < ttl
    ensures Reaches(s, mid, ttl) && dest in mid.table && mid.table[dest] == Lease(s.table[dest].fake, mid.now)
    ensures !NoOlderLookup(mid, dest, mid.now)
    ensures Reaches(mid, s', ttl) && s'.now < mid.now + ttl && s.table[dest].fake !in s'.kernel
  {
    var old1, new1 := Touch(dest, s.now), Touch(dest, s.now + 1);
    var s1 := s.(touches := map[0 := old1]);
    var s2 := s1.(now := s.now + 1);
    var s3 := s2.(touches := map[0 := old1, 1 := new1]);
    mid := s2.(table := s.table[dest := Lease(s.table[dest].fake, s.now + 1)]);
    assert TouchStart(s, s1, 0, dest);
    assert Tick(s1, s2);
    assert TouchStart(s2, s3, 1, dest);
    assert s3.touches - {1} == map[0 := old1];
    assert TouchStore(s3, mid, 1);
    assert LocalInv(mid);
    hide Reaches, LocalInv, Inv;
    ReachesSelf(s, ttl);
    ReachesStep(s, s, s1, ttl, StartsTouch(0, dest));
    ReachesStep(s, s1, s2, ttl, Ticks);
    ReachesStep(s, s2, s3, ttl, StartsTouch(1, dest));
    ReachesStep(s, s3, mid, ttl, StoresTouch(1));
    s' := OlderLookupBreaksLease(mid, ttl, dest, 0, mid.now);
  }

  /** The kernel keeps dest's mapping until t + ttl, however the run goes on. */
  ghost predicate LeaseSurvives(s: State, ttl: nat, dest: u32, t: int) {
    dest in s.table && forall s' :: Reaches(s, s', ttl) && s'.now < t + ttl ==>
      s.table[dest].fake in s'.kernel && s'.kernel[s.table[dest].fake] == dest
  }

  ghost predicate NoOlderLookup(s: State, dest: u32, t: int) {
    forall id :: id in s.touches && s.touches[id].dest == dest ==> t <= s.touches[id].at
  }

  /** A lookup that has just stored its clock reading t is promised a mapping until t + ttl.
      Every continuation keeps that promise exactly when no older lookup of the same entry is
      still under way. */
  lemma {:induction false} LeaseSurvivesExactly(s: State, ttl: nat, dest: u32, t: int)
    requires Inv(s) && CutInv(s, ttl) && dest in s.table && s.table[dest].lastSeen == t
    requires s.now < t + ttl
    ensures LeaseSurvives(s, ttl, dest, t) <==> NoOlderLookup(s, dest, t)
  {
    var f := s.table[dest].fake;
    assert LocalInv(s);
    hide Inv, CutInv, Next, Reaches;
    if NoOlderLookup(s, dest, t) {
      forall s' | Reaches(s, s', ttl) && s'.now < t + ttl
        ensures f in s'.kernel && s'.kernel[f] == dest
      {
        LeaseReaches(s, s', ttl, dest, f, t);
      }
    } else {
      var id :| id in s.touches && s.touches[id].dest == dest && s.touches[id].at < t;
      var s' := OlderLookupBreaksLease(s, ttl, dest, id, t);
    }
  }

  lemma {:induction false} LeaseReaches(s: State, s': State, ttl: nat, dest: u32, f: u32, b: int)
    requires Inv(s) && CutInv(s, ttl) && Leased(s, dest, f, b) && Reaches(s, s', ttl) && s'.now < b + ttl
    ensures f in s'.kernel && s'.kernel[f] == dest
  {
    hide Inv, CutInv, Next, Leased;
    var tr :| Run(tr, ttl) && tr[0] == s && tr[|tr| - 1] == s';
    LeaseHolds(tr, ttl, 0, |tr| - 1, dest, f, b);
  }

  // ---------------------------------------------------------------- the answer's time to live

  const NANOS_PER_SECOND := 1_000_000_000

  /** The intermediate results of the TTL of a remapped answer, as the program computes them:
      in 64-bit floating point, ending in a 32-bit field. */
  datatype TtlSteps = TtlSteps(fraction: real, seconds: real, product: real, ttl: u32)

  /** The constant 0.8 as a 64-bit floating-point number. */
  const FOUR_FIFTHS: real := 3602879701896397.0 / 4503599627370496.0

  /** y is x rounded to 53 significant bits, for x below 2^53: the error is at most half a unit
      in the last place, and no integer is crossed, integers being represented exactly. */
  ghost predicate Rounded(y: real, x: real) {
    && -x / 9007199254740992.0 <= y - x <= x / 9007199254740992.0
    && x.Floor as real <= y <= -((-x).Floor as real)
  }

  /** Four fifths of the lease in seconds, truncated. A product too large for the field may
      leave any number there. */
  ghost predicate ComputesTtl(ttl: nat, c: TtlSteps) {
    && Rounded(c.fraction, (ttl % NANOS_PER_SECOND) as real / NANOS_PER_SECOND as real)
    && Rounded(c.seconds, (ttl / NANOS_PER_SECOND) as real + c.fraction)
    && Rounded(c.product, c.seconds * FOUR_FIFTHS)
    && (c.product < 4294967296.0 ==> c.ttl == c.product.Floor)
  }

  /** What roundings can add or take away: one part in 2^50. */
  const PARTS := 0x4_0000_0000_0000

  lemma {:induction false} RoundingsNear(whole: real, part: real, c: TtlSteps)
    requires 0.0 <= whole && 0.0 <= part
    requires Rounded(c.fraction, part) && Rounded(c.seconds, whole + c.fraction)
    requires Rounded(c.product, c.seconds * FOUR_FIFTHS)
    ensures 4.0 * (whole + part) * 1125899906842623.0 <= 5.0 * c.product * 1125899906842624.0
    ensures 5.0 * c.product * 1125899906842624.0 <= 4.0 * (whole + part) * 1125899906842625.0
  {
  }

  /** The answer's TTL is four fifths of the lease in whole seconds, but for one part in 2^50. */
  lemma {:induction false} AnswerTtlIsFourFifths(ttl: nat, c: TtlSteps)
    requires ComputesTtl(ttl, c) && c.product < 4294967296.0
    ensures 5 * c.ttl * NANOS_PER_SECOND * PARTS <= 4 * ttl * (PARTS + 1)
    ensures 5 * (c.ttl + 1) * NANOS_PER_SECOND * PARTS > 4 * ttl * (PARTS - 1)
  {
    var whole, rest := ttl / NANOS_PER_SECOND, ttl % NANOS_PER_SECOND;
    var part := rest as real / NANOS_PER_SECOND as real;
    assert part * 1000000000.0 == rest as real;
    RoundingsNear(whole as real, part, c);
    hide Rounded;
    assert ttl as real == (whole as real + part) * 1000000000.0;
    assert c.ttl as real <= c.product < c.ttl as real + 1.0;
  }

  /** A lease of a multiple of five whole seconds gives exactly four fifths of it. */
  lemma {:induction false} WholeLease(n: nat, c: TtlSteps)
    requires n < 0x4000_0000 && ComputesTtl(5 * n * NANOS_PER_SECOND, c)
    ensures c.ttl == 4 * n
  {
    assert 5 * n * NANOS_PER_SECOND / NANOS_PER_SECOND == 5 * n && 5 * n * NANOS_PER_SECOND % NANOS_PER_SECOND == 0;
    assert c.fraction == 0.0;
    var x := 5.0 * n as real;
    assert c.seconds == x by {
      WholeStays(c.seconds, 5 * n);
    }
    hide Rounded;
    ProductOfWhole(n, c.product);
  }

  lemma {:induction false} WholeStays(y: real, n: nat)
    requires Rounded(y, n as real)
    ensures y == n as real
  {
    assert (n as real).Floor == n;
    assert (-(n as real)).Floor == 0 - n;
  }

  lemma {:induction false} ProductOfWhole(n: nat, y: real)
    requires n < 0x4000_0000 && Rounded(y, 5.0 * n as real * FOUR_FIFTHS)
    ensures y.Floor == 4 * n && y < 4294967296.0
  {
    var x := 5.0 * n as real * FOUR_FIFTHS;
    assert 4.0 * n as real <= x < 4.0 * n as real + 0.000001;
    assert x.Floor == 4 * n;
  }

  /** Rounding and the field's width included, the answer's TTL is shorter than the lease. */
  lemma {:induction false} AnswerTtlFits(ttl: nat, c: TtlSteps)
    requires ttl > 0 && ComputesTtl(ttl, c)
    ensures c.ttl * NANOS_PER_SECOND < ttl
  {
    var whole, rest := ttl / NANOS_PER_SECOND, ttl % NANOS_PER_SECOND;
    var part := rest as real / NANOS_PER_SECOND as real;
    assert part * 1000000000.0 == rest as real;
    RoundingsNear(whole as real, part, c);
    hide Rounded;
    assert c.ttl as real <= c.product;
    assert c.ttl as real * 1000000000.0 < whole as real * 1000000000.0 + rest as real;
  }

  /** An answer carrying that TTL, counted from the lease's clock reading, never outlives
      the kernel's mapping. */
  lemma {:induction false} AnswerNeverOutlivesMapping(tr: seq<State>, ttl: nat, c: TtlSteps, i: nat, j: nat, dest: u32, f: u32, t: int)
    requires Run(tr, ttl) && Inv(tr[0]) && CutInv(tr[0], ttl) && ttl > 0 && ComputesTtl(ttl, c)
    requires i <= j < |tr| && Leased(tr[i], dest, f, t)
    requires tr[j].now <= t + c.ttl * NANOS_PER_SECOND
    ensures f in tr[j].kernel && tr[j].kernel[f] == dest
  {
    AnswerTtlFits(ttl, c);
    hide Inv, CutInv, Next, Leased, ComputesTtl;
    LeaseHolds(tr, ttl, i, j, dest, f, t);
  }
}
