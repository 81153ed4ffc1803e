// Every step of the mapping protocol keeps its invariant, so every run does, whatever the
// interleaving of flights, lookups and cleaning.
module ProtocolSafety {
  import opened Bytes
  import opened Pool
  import opened Protocol

  // ---------------------------------------------------------------- handing addresses over

  lemma {:induction false} SameOwnersPartition(s: State, s': State)
    requires Partition(s) && Outstanding(s'.pool) == Outstanding(s.pool)
    requires forall o, f :: Owns(s', o, f) == Owns(s, o, f)
    ensures Partition(s')
  {
    forall f | f in Outstanding(s'.pool)
      ensures exists o :: Owns(s', o, f)
    {
      var o :| Owns(s, o, f);
      assert Owns(s', o, f);
    }
  }

  /** One owner takes all of another's address over; nobody else is concerned. */
  lemma {:induction false} HandoverPartition(s: State, s': State, a: Owner, b: Owner)
    requires Partition(s) && Outstanding(s'.pool) == Outstanding(s.pool)
    requires a != b && forall f :: !Owns(s, b, f)
    requires forall o, f :: Owns(s', o, f) == (o != a && Owns(s, if o == b then a else o, f))
    ensures Partition(s')
  {
    forall f | f in Outstanding(s'.pool)
      ensures exists o :: Owns(s', o, f)
    {
      var o :| Owns(s, o, f);
      assert Owns(s', if o == a then b else o, f);
    }
    forall o, o', f | Owns(s', o, f) && Owns(s', o', f)
      ensures o == o'
    {
      assert Owns(s, if o == b then a else o, f) && Owns(s, if o' == b then a else o', f);
    }
  }

  lemma {:induction false} GainPartition(s: State, s': State, a: Owner, ip: u32)
    requires Partition(s) && ip !in Outstanding(s.pool)
    requires Outstanding(s'.pool) == Outstanding(s.pool) + {ip}
    requires forall o, f :: Owns(s', o, f) == (Owns(s, o, f) || (o == a && f == ip))
    ensures Partition(s')
  {
    forall f | f in Outstanding(s'.pool)
      ensures exists o :: Owns(s', o, f)
    {
      if f == ip {
        assert Owns(s', a, f);
      } else {
        var o :| Owns(s, o, f);
        assert Owns(s', o, f);
      }
    }
  }

  lemma {:induction false} LosePartition(s: State, s': State, a: Owner, ip: u32)
    requires Partition(s) && Owns(s, a, ip)
    requires Outstanding(s'.pool) == Outstanding(s.pool) - {ip}
    requires forall o, f :: Owns(s', o, f) == (Owns(s, o, f) && o != a)
    ensures Partition(s')
  {
    forall f | f in Outstanding(s'.pool)
      ensures exists o :: Owns(s', o, f)
    {
      var o :| Owns(s, o, f);
      assert OneAddress(s, o, f);
      assert Owns(s', o, f) by {
        assert o == a ==> f == ip;
      }
    }
    forall o, f | Owns(s', o, f)
      ensures f in Outstanding(s'.pool)
    {
      assert Owns(s, o, f);
      assert f == ip ==> o == a;
    }
  }

  /** An owner owns at most one address. */
  ghost predicate OneAddress(s: State, o: Owner, f: u32) {
    Owns(s, o, f) ==> forall g :: Owns(s, o, g) ==> g == f
  }

  // ---------------------------------------------------------------- steps that move no address

  lemma {:induction false} TickKeeps(s: State, s': State)
    requires Inv(s) && Tick(s, s')
    ensures Inv(s')
  {
    SameOwnersPartition(s, s');
    SameKernel(s, s');
  }

  /** The kernel's share of the invariant, when neither it nor what it must say changes. */
  lemma {:induction false} SameKernel(s: State, s': State)
    requires KernelInv(s) && s'.kernel == s.kernel && Outstanding(s'.pool) == Outstanding(s.pool)
    requires forall o, f :: Owns(s', o, f) ==> Owns(s, o, f)
    requires forall o, f :: Owns(s', o, f) && KernelAgrees(s, o, f) ==> KernelAgrees(s', o, f)
    ensures KernelInv(s')
  {
  }

  lemma {:induction false} TouchStartKeeps(s: State, s': State, id: nat, dest: u32)
    requires Inv(s) && TouchStart(s, s', id, dest)
    ensures Inv(s')
  {
    SameOwnersPartition(s, s');
    SameKernel(s, s');
  }

  lemma {:induction false} TouchStoreKeeps(s: State, s': State, id: nat)
    requires Inv(s) && TouchStore(s, s', id)
    ensures Inv(s')
  {
    SameOwnersPartition(s, s');
    SameKernel(s, s');
  }

  lemma {:induction false} FlightEnterKeeps(s: State, s': State, dest: u32)
    requires Inv(s) && FlightEnter(s, s', dest)
    ensures Inv(s')
  {
    SameOwnersPartition(s, s');
    SameKernel(s, s');
  }

  lemma {:induction false} FlightHitKeeps(s: State, s': State, id: nat, dest: u32)
    requires Inv(s) && FlightHit(s, s', id, dest)
    ensures Inv(s')
  {
    SameOwnersPartition(s, s');
    SameKernel(s, s');
  }

  lemma {:induction false} FlightMissKeeps(s: State, s': State, dest: u32)
    requires Inv(s) && FlightMiss(s, s', dest)
    ensures Inv(s')
  {
    SameOwnersPartition(s, s');
    SameKernel(s, s');
  }

  lemma {:induction false} FlightStampKeeps(s: State, s': State, dest: u32)
    requires Inv(s) && FlightStamp(s, s', dest)
    ensures Inv(s')
  {
    SameOwnersPartition(s, s');
    SameKernel(s, s');
  }

  lemma {:induction false} CleanStartKeeps(s: State, s': State, ttl: nat)
    requires Inv(s) && CleanStart(s, s', ttl)
    ensures Inv(s')
  {
    SameOwnersPartition(s, s');
    SameKernel(s, s');
  }

  lemma {:induction false} CleanEndKeeps(s: State, s': State)
    requires Inv(s) && CleanEnd(s, s')
    ensures Inv(s')
  {
    SameOwnersPartition(s, s');
    SameKernel(s, s');
  }

  // ---------------------------------------------------------------- kernel calls

  lemma {:induction false} FlightAddKeeps(s: State, s': State, dest: u32)
    requires Inv(s) && FlightAdd(s, s', dest)
    ensures Inv(s')
  {
    assert s'.pool == s.pool && LocalInv(s');
    assert Owns(s, ByFlight(dest), s.flights[dest].fake);
    assert forall f :: f in s'.kernel ==> f in s.kernel || f == s.flights[dest].fake;
    forall o, f
      ensures Owns(s', o, f) == Owns(s, o, f)
      ensures Owns(s', o, f) ==> KernelAgrees(s', o, f)
    {
      AddAgrees(s, s', dest, o, f);
    }
    hide PoolInv, Outstanding, Owns, KernelAgrees, LocalInv, FlightAdd;
    SameOwnersPartition(s, s');
  }

  lemma {:induction false} AddAgrees(s: State, s': State, dest: u32, o: Owner, f: u32)
    requires Inv(s) && FlightAdd(s, s', dest)
    ensures Owns(s', o, f) == Owns(s, o, f)
    ensures Owns(s', o, f) ==> KernelAgrees(s', o, f)
  {
    hide PoolInv, Outstanding, LocalInv;
    var g := s.flights[dest].fake;
    assert Owns(s, ByFlight(dest), g);
    if Owns(s, o, f) {
      assert KernelAgrees(s, o, f);
      assert f == g ==> o == ByFlight(dest);
    }
  }

  lemma {:induction false} ParkedFakes(s: State, f: u32)
    ensures f in Fakes(Parked(s)) <==> exists i: nat :: Owns(s, ByClean(i), f)
  {
    if f in Fakes(Parked(s)) {
      var i :| 0 <= i < |Parked(s)| && Parked(s)[i].fake == f;
      assert Owns(s, ByClean(i), f);
    }
  }

  lemma {:induction false} CleanDeleteKeeps(s: State, s': State)
    requires Inv(s) && CleanDelete(s, s')
    ensures Inv(s')
  {
    SameOwnersPartition(s, s');
    forall o, f | Owns(s', o, f)
      ensures KernelAgrees(s', o, f)
    {
      assert Owns(s, o, f) && KernelAgrees(s, o, f);
      ParkedFakes(s, f);
    }
  }

  lemma {:induction false} CleanDeleteFailsKeeps(s: State, s': State, removed: set<u32>)
    requires Inv(s) && CleanDeleteFails(s, s', removed)
    ensures Inv(s')
  {
    SameOwnersPartition(s, s');
    forall o, f | Owns(s', o, f)
      ensures KernelAgrees(s', o, f)
    {
      assert Owns(s, o, f) && KernelAgrees(s, o, f);
      ParkedFakes(s, f);
    }
  }

  // ---------------------------------------------------------------- steps that move an address

  lemma {:induction false} FlightAllocateKeeps(s: State, s': State, dest: u32)
    requires Inv(s) && FlightAllocate(s, s', dest)
    ensures Inv(s')
  {
    AllocateSpec(s.pool);
    hide PoolInv, Outstanding, AllocateV;
    var r := AllocateV(s.pool).1;
    if r.Some? {
      GainPartition(s, s', ByFlight(dest), r.value);
      forall o, f | Owns(s', o, f)
        ensures KernelAgrees(s', o, f)
      {
        assert Owns(s, o, f) ==> KernelAgrees(s, o, f);
      }
    } else {
      SameOwnersPartition(s, s');
      SameKernel(s, s');
    }
  }

  lemma {:induction false} FlightReleaseKeeps(s: State, s': State, dest: u32)
    requires Inv(s) && FlightRelease(s, s', dest)
    ensures Inv(s')
  {
    var g := s.flights[dest].fake;
    assert Owns(s, ByFlight(dest), g);
    ReleaseSpec(s.pool, g);
    LosePartition(s, s', ByFlight(dest), g);
    KernelAfterRelease(s, s', ByFlight(dest), g);
  }

  lemma {:induction false} KernelAfterRelease(s: State, s': State, a: Owner, g: u32)
    requires KernelInv(s) && s'.kernel == s.kernel && g !in s.kernel
    requires Outstanding(s'.pool) == Outstanding(s.pool) - {g}
    requires forall o, f :: Owns(s', o, f) ==> exists o' :: Owns(s, o', f) && (KernelAgrees(s, o', f) ==> KernelAgrees(s', o, f))
    ensures KernelInv(s')
  {
  }

  lemma {:induction false} FlightSetKeeps(s: State, s': State, dest: u32)
    requires Inv(s) && FlightSet(s, s', dest)
    ensures Inv(s')
  {
    HandoverPartition(s, s', ByFlight(dest), ByTable(dest));
    forall o, f | Owns(s', o, f)
      ensures KernelAgrees(s', o, f)
    {
      var o' := if o == ByTable(dest) then ByFlight(dest) else o;
      assert Owns(s, o', f) && KernelAgrees(s, o', f);
    }
  }

  lemma {:induction false} CleanReleaseKeeps(s: State, s': State)
    requires Inv(s) && CleanRelease(s, s')
    ensures Inv(s')
  {
    var g := s.clean.rest[0].fake;
    var first := ByClean(0);
    assert Owns(s, first, g) && KernelAgrees(s, first, g);
    ReleaseSpec(s.pool, g);
    hide PoolInv, Outstanding, ReleaseV;
    forall o, f
      ensures Owns(s', o, f) == Owns(s, Before(o), f)
    {
    }
    forall f | f in Outstanding(s'.pool)
      ensures exists o :: Owns(s', o, f)
    {
      var o :| Owns(s, o, f);
      assert o != first;
      var o' := match o case ByClean(i) => ByClean(i - 1) case _ => o;
      assert Before(o') == o;
      assert Owns(s', o', f);
    }
    forall o, f | Owns(s', o, f)
      ensures f in Outstanding(s'.pool) && KernelAgrees(s', o, f)
    {
      assert Owns(s, Before(o), f) && KernelAgrees(s, Before(o), f);
      assert f == g ==> Before(o) == first;
    }
    forall o, o', f | Owns(s', o, f) && Owns(s', o', f)
      ensures o == o'
    {
      assert Owns(s, Before(o), f) && Owns(s, Before(o'), f);
    }
  }

  /** Where an owner stood before the head of the parked pairs was released. */
  ghost function Before(o: Owner): Owner {
    match o
    case ByClean(i) => ByClean(i + 1)
    case _ => o
  }

  lemma {:induction false} CleanExpireKeeps(s: State, s': State, out: seq<Pair>)
    requires Inv(s) && CleanExpire(s, s', out)
    ensures Inv(s')
  {
    var n := |s.pending|;
    assert s'.pool == s.pool && s'.kernel == s.kernel;
    assert LocalInv(s');
    forall o, f | Owns(s', o, f)
      ensures Owns(s, Origin(n, out, o), f) && KernelAgrees(s', o, f)
    {
      ExpiredOrigin(s, s', out, o, f);
    }
    forall o, o', f | Owns(s', o, f) && Owns(s', o', f)
      ensures o == o'
    {
      OriginsDiffer(s, s', out, o, o', f);
    }
    forall f | f in Outstanding(s'.pool)
      ensures exists o :: Owns(s', o, f)
    {
      var o := ExpiredOwner(s, s', out, f);
    }
    hide PoolInv, Outstanding, Owns, KernelAgrees, LocalInv, CleanExpire, Origin;
    assert KernelInv(s');
  }

  lemma {:induction false} ExpiredOrigin(s: State, s': State, out: seq<Pair>, o: Owner, f: u32)
    requires Inv(s) && CleanExpire(s, s', out) && Owns(s', o, f)
    ensures Owns(s, Origin(|s.pending|, out, o), f) && KernelAgrees(s', o, f)
  {
    OriginOwns(s, s', out, o, f);
    hide PoolInv, Outstanding, LocalInv, ListsExpired, Unexpired;
    assert KernelAgrees(s, Origin(|s.pending|, out, o), f);
    assert Parked(s') == s.pending + out;
    hide KernelInv, Partition;
  }

  lemma {:induction false} OriginOwns(s: State, s': State, out: seq<Pair>, o: Owner, f: u32)
    requires CleanExpire(s, s', out) && Owns(s', o, f)
    ensures Owns(s, Origin(|s.pending|, out, o), f)
  {
    assert Parked(s') == s.pending + out;
  }

  lemma {:induction false} OriginsDiffer(s: State, s': State, out: seq<Pair>, o: Owner, o': Owner, f: u32)
    requires Inv(s) && CleanExpire(s, s', out) && Owns(s', o, f) && Owns(s', o', f)
    ensures o == o'
  {
    ExpiredOrigin(s, s', out, o, f);
    ExpiredOrigin(s, s', out, o', f);
    var n := |s.pending|;
    SameOrigin(s, Origin(n, out, o), Origin(n, out, o'), f);
    OwnerNotListed(s, s', out, o, f);
    OwnerNotListed(s, s', out, o', f);
    hide Inv, Owns, Origin, NotListed;
    OriginInjective(n, out, o, o');
  }

  lemma {:induction false} SameOrigin(s: State, o: Owner, o': Owner, f: u32)
    requires Partition(s) && Owns(s, o, f) && Owns(s, o', f)
    ensures o == o'
  {
  }

  ghost predicate NotListed(out: seq<Pair>, o: Owner) {
    o.ByTable? ==> forall i :: 0 <= i < |out| ==> out[i].dest != o.dest
  }

  lemma {:induction false} OwnerNotListed(s: State, s': State, out: seq<Pair>, o: Owner, f: u32)
    requires CleanExpire(s, s', out) && Owns(s', o, f)
    ensures NotListed(out, o)
  {
  }

  lemma {:induction false} OriginInjective(n: nat, out: seq<Pair>, o: Owner, o': Owner)
    requires forall i, j :: 0 <= i < j < |out| ==> out[i].dest != out[j].dest
    requires NotListed(out, o) && NotListed(out, o') && Origin(n, out, o) == Origin(n, out, o')
    ensures o == o'
  {
  }

  lemma {:induction false} ExpiredOwner(s: State, s': State, out: seq<Pair>, f: u32) returns (o: Owner)
    requires Inv(s) && CleanExpire(s, s', out) && f in Outstanding(s.pool)
    ensures Owns(s', o, f)
  {
    hide PoolInv, Outstanding, LocalInv, KernelInv;
    assert Parked(s') == s.pending + out;
    o :| Owns(s, o, f);
    if o.ByTable? && s.table[o.dest].lastSeen <= s.clean.cutoff {
      var i: nat :| i < |out| && out[i] == Pair(o.dest, f);
      o := ByClean(|s.pending| + i);
    }
  }

  /** Where an owner stood before the expired entries were parked behind n pending ones. */
  ghost function Origin(n: nat, out: seq<Pair>, o: Owner): Owner {
    match o
    case ByClean(i) => if n <= i < n + |out| then ByTable(out[i - n].dest) else o
    case _ => o
  }

  // ---------------------------------------------------------------- every step, every run

  lemma {:induction false} StepKeepsInv(s: State, s': State, ttl: nat, step: Step)
    requires Inv(s) && NextBy(s, s', ttl, step)
    ensures Inv(s')
  {
    hide Inv, Tick, TouchStart, TouchStore, FlightEnter, FlightHit, FlightMiss, FlightAllocate, FlightAdd,
         FlightRelease, FlightStamp, FlightSet, CleanStart, CleanExpire, CleanDelete, CleanDeleteFails,
         CleanRelease, CleanEnd;
    match step
    case Ticks => TickKeeps(s, s');
    case StartsTouch(id, dest) => TouchStartKeeps(s, s', id, dest);
    case StoresTouch(id) => TouchStoreKeeps(s, s', id);
    case Enters(dest) => FlightEnterKeeps(s, s', dest);
    case Hits(id, dest) => FlightHitKeeps(s, s', id, dest);
    case Misses(dest) => FlightMissKeeps(s, s', dest);
    case Allocates(dest) => FlightAllocateKeeps(s, s', dest);
    case Adds(dest) => FlightAddKeeps(s, s', dest);
    case Releases(dest) => FlightReleaseKeeps(s, s', dest);
    case Stamps(dest) => FlightStampKeeps(s, s', dest);
    case Sets(dest) => FlightSetKeeps(s, s', dest);
    case CleanStarts => CleanStartKeeps(s, s', ttl);
    case CleanExpires(out) => CleanExpireKeeps(s, s', out);
    case CleanDeletes => CleanDeleteKeeps(s, s');
    case CleanFails(removed) => CleanDeleteFailsKeeps(s, s', removed);
    case CleanReleases => CleanReleaseKeeps(s, s');
    case CleanEnds => CleanEndKeeps(s, s');
  }
}
