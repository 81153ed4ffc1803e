// The mapper itself (ipmap.go): Map and Clean as sequences of protocol steps, and the
// adoption of what a previous process left in the kernel.
module IpMapper {
  import opened Bytes
  import opened Pool
  import opened Protocol
  import opened ProtocolSafety
  import opened ProtocolRuns
  import opened Table

  datatype Addr = V4(ip: u32) | Other
  datatype Mapping = Mapping(fake: Addr, dest: Addr)
  datatype MapResult = Fake(ip: u32) | NotIPv4 | NoFreeIPs | FirewallError

  class IpMapper {
    const table: MappingTable
    const pool: IpPool
    const fw: Firewall
    const clock: Clock
    const ttl: nat
    var pending: seq<Pair>

    /** The protocol state when no call is under way. */
    ghost function View(): State
      reads this, table, pool, fw, clock
      requires pool.head <= |pool.freed|
    {
      State(pool.View(), table.m, fw.m, pending, map[], map[], Idle, clock.now)
    }

    ghost predicate Valid()
      reads this, table, pool, fw, clock
    {
      pool.Valid() && Inv(View())
    }

    constructor (pool: IpPool, fw: Firewall, clock: Clock, ttl: nat)
      ensures this.pool == pool && this.fw == fw && this.clock == clock && this.ttl == ttl
      ensures fresh(table) && table.m == map[] && pending == []
    {
      this.table := new MappingTable();
      this.pool := pool;
      this.fw := fw;
      this.clock := clock;
      this.ttl := ttl;
      this.pending := [];
    }

    /** One uninterrupted Map call: a run of protocol steps that ends with dest in the table
        and the kernel, or with everything back as it was apart from the pool's order. */
    method Map(addr: Addr, works: bool) returns (r: MapResult)
      requires Valid()
      modifies table, pool, fw, clock
      ensures Valid() && Reaches(old(View()), View(), ttl)
      ensures r.NotIPv4? <==> addr.Other?
      ensures addr.Other? ==> View() == old(View())
      ensures addr.V4? && addr.ip in old(table.m) ==> r == Fake(old(table.m)[addr.ip].fake)
      ensures r.Fake? ==>
                && addr.ip in table.m && table.m[addr.ip] == Lease(r.ip, clock.now)
                && table.m - {addr.ip} == old(table.m) - {addr.ip}
                && r.ip in fw.m && fw.m[r.ip] == addr.ip
      ensures r.Fake? && addr.ip !in old(table.m) ==> (pool.View(), Some(r.ip)) == AllocateV(old(pool.View()))
      ensures r.NoFreeIPs? <==> addr.V4? && addr.ip !in old(table.m) && Outstanding(old(pool.View())) == Range(old(pool.View()))
      ensures r.FirewallError? <==> addr.V4? && addr.ip !in old(table.m) && !r.NoFreeIPs? && !works
      ensures !r.Fake? ==> table.m == old(table.m) && fw.m == old(fw.m) && Outstanding(pool.View()) == Outstanding(old(pool.View()))
    {
      ghost var s0 := View();
      ReachesSelf(s0, ttl);
      if addr.Other? {
        return NotIPv4;
      }
      var dest := addr.ip;
      var fake, ok := table.Get(dest, clock);
      if ok {
        TouchRun(s0, View(), ttl, dest);
        TableMatchesKernel(View(), dest, dest);
        return Fake(fake);
      }
      r := RunFlight(dest, works);
    }

    /** The function Map runs once per real address at a time. */
    method RunFlight(dest: u32, works: bool) returns (r: MapResult)
      requires Valid()
      modifies table, pool, fw, clock
      ensures Valid() && Reaches(old(View()), View(), ttl)
      ensures !r.NotIPv4?
      ensures dest in old(table.m) ==> r == Fake(old(table.m)[dest].fake)
      ensures r.Fake? ==>
                && dest in table.m && table.m[dest] == Lease(r.ip, clock.now)
                && table.m - {dest} == old(table.m) - {dest}
                && r.ip in fw.m && fw.m[r.ip] == dest
      ensures r.Fake? && dest !in old(table.m) ==> (pool.View(), Some(r.ip)) == AllocateV(old(pool.View()))
      ensures r.NoFreeIPs? <==> dest !in old(table.m) && Outstanding(old(pool.View())) == Range(old(pool.View()))
      ensures r.FirewallError? <==> dest !in old(table.m) && !r.NoFreeIPs? && !works
      ensures !r.Fake? ==> table.m == old(table.m) && fw.m == old(fw.m) && Outstanding(pool.View()) == Outstanding(old(pool.View()))
    {
      ghost var s := View();
      hide Inv, Reaches, AllocateV, PoolInv, Outstanding, Range, ReleaseV;
      var known, ok := table.Get(dest, clock);
      if ok {
        TouchRun(s, View(), ttl, dest);
        TableMatchesKernel(View(), dest, dest);
        return Fake(known);
      }
      r := MapNew(dest, works);
    }

    /** The part of a flight that follows a miss: allocate, add, set. */
    method MapNew(dest: u32, works: bool) returns (r: MapResult)
      requires Valid() && dest !in table.m
      modifies table, pool, fw, clock
      ensures Valid() && Reaches(old(View()), View(), ttl)
      ensures !r.NotIPv4?
      ensures r.Fake? ==>
                && table.m == old(table.m)[dest := Lease(r.ip, clock.now)]
                && r.ip in fw.m && fw.m[r.ip] == dest
      ensures r.Fake? ==> (pool.View(), Some(r.ip)) == AllocateV(old(pool.View()))
      ensures r.NoFreeIPs? <==> Outstanding(old(pool.View())) == Range(old(pool.View()))
      ensures r.FirewallError? <==> !r.NoFreeIPs? && !works
      ensures !r.Fake? ==> table.m == old(table.m) && fw.m == old(fw.m) && Outstanding(pool.View()) == Outstanding(old(pool.View()))
    {
      ghost var s := View();
      assert PoolInv(s.pool);
      hide Inv, Reaches, AllocateV, PoolInv, Outstanding, Range, ReleaseV;
      AllocateSpec(s.pool);
      AllocateFailsExactly(s.pool);
      var fake, found := pool.Allocate();
      if !found {
        ExhaustedRun(s, View(), ttl, dest);
        return NoFreeIPs;
      }
      var added := fw.Add(fake, dest, works);
      if !added {
        FreshOutstanding(s.pool, fake);
        pool.Release(fake);
        AddFailsRun(s, View(), ttl, dest, fake);
        return FirewallError;
      }
      table.Set(dest, fake, clock);
      MappedRun(s, View(), ttl, dest, fake);
      r := Fake(fake);
    }

    /** One uninterrupted Clean: every entry not seen for a ttl leaves the table and is deleted
        together with what earlier failures left; on failure the whole batch stays pending. */
    method CleanUp(works: bool) returns (ok: bool, ghost batch: seq<Pair>)
      requires Valid()
      modifies this, table, pool, fw, clock
      ensures Valid() && Reaches(old(View()), View(), ttl)
      ensures table.m == Unexpired(old(table.m), clock.now - ttl)
      ensures forall r :: r in table.m <==> r in old(table.m) && clock.now < old(table.m)[r].lastSeen + ttl
      ensures forall r :: r in table.m ==> table.m[r] == old(table.m)[r]
      ensures old(pending) <= batch && ListsExpired(old(table.m), clock.now - ttl, batch[|old(pending)|..])
      ensures ok ==> pool.View() == old(pool.View()).(queue := old(pool.View()).queue + FakesInOrder(batch))
      ensures ok <==> batch == [] || works
      ensures !ok ==> pending == batch
      ensures ok ==> pending == []
                     && Outstanding(pool.View()) == LiveFakes(table.m)
                     && fw.m.Keys == LiveFakes(table.m)
      ensures !ok ==> pool.View() == old(pool.View())
    {
      hide Inv, Reaches, ListsExpired, Unexpired, PoolInv, Outstanding, LiveFakes, FakesInOrder;
      ghost var s := View();
      var t := clock.Read();
      var cutoff := t - ttl;
      var expired := table.Expired(cutoff);
      var items := pending + expired;
      batch := items;
      assert batch[|pending|..] == expired;
      UnexpiredMeans(s.table, t, ttl);
      ghost var s2 := ExpireRun(s, ttl, t, expired);
      if |items| == 0 {
        pending := [];
        ok := true;
        assert View() == s2;
        assert pool.View().queue + FakesInOrder(batch) == pool.View().queue;
        QuietOwnership(View());
        return;
      }
      ghost var before := During(Deleting(items));
      assert before == s2;
      pending, ok := Teardown(items, s, works);
      if ok {
        QuietOwnership(View());
      }
    }

    /** The protocol state in the middle of a cleaning. */
    ghost function During(c: Clean): State
      reads this, table, pool, fw, clock
      requires pool.head <= |pool.freed|
    {
      View().(clean := c)
    }

    /** Deletes the batch and releases its addresses; s is where the run started. */
    method Teardown(items: seq<Pair>, ghost s: State, works: bool) returns (failed: seq<Pair>, ok: bool)
      requires items != [] && pool.Valid()
      requires Inv(During(Deleting(items))) && Reaches(s, During(Deleting(items)), ttl)
      modifies pool, fw
      ensures pool.Valid()
      ensures var s' := View().(pending := failed); Inv(s') && Reaches(s, s', ttl)
      ensures ok == works
      ensures failed == if ok then [] else items
      ensures !ok ==> pool.View() == old(pool.View())
      ensures ok ==> pool.View() == old(pool.View()).(queue := old(pool.View()).queue + FakesInOrder(items))
    {
      hide Inv, Reaches;
      ghost var d := During(Deleting(items));
      ok := fw.Delete(items, works);
      if !ok {
        failed := items;
        ghost var removed :| removed <= Fakes(items) && fw.m == d.kernel - removed;
        ghost var s' := View().(pending := items);
        assert CleanDeleteFails(d, s', removed);
        Extend(s, d, s', ttl, CleanFails(removed));
        return;
      }
      assert CleanDelete(d, During(Releasing(items)));
      Extend(s, d, During(Releasing(items)), ttl, CleanDeletes);
      ReleaseAll(items, s);
      failed := [];
      ghost var s' := View().(pending := []);
      assert CleanEnd(During(Releasing([])), s');
      Extend(s, During(Releasing([])), s', ttl, CleanEnds);
    }

    method ReleaseAll(items: seq<Pair>, ghost s: State)
      requires pool.Valid()
      requires Inv(During(Releasing(items))) && Reaches(s, During(Releasing(items)), ttl)
      modifies pool
      ensures pool.Valid()
      ensures Inv(During(Releasing([]))) && Reaches(s, During(Releasing([])), ttl)
      ensures pool.View() == old(pool.View()).(queue := old(pool.View()).queue + FakesInOrder(items))
    {
      hide Inv, Reaches;
      assert items[0..] == items;
      for i := 0 to |items|
        invariant pool.Valid()
        invariant Inv(During(Releasing(items[i..]))) && Reaches(s, During(Releasing(items[i..])), ttl)
        invariant pool.View() == old(pool.View()).(queue := old(pool.View()).queue + FakesInOrder(items[..i]))
      {
        ghost var g := During(Releasing(items[i..]));
        assert items[i..][0] == items[i] && items[i..][1..] == items[i + 1..];
        HeadOutstanding(g);
        FakesSnoc(old(pool.View()).queue, items, i);
        pool.Release(items[i].fake);
        assert CleanRelease(g, During(Releasing(items[i + 1..])));
        Extend(s, g, During(Releasing(items[i + 1..])), ttl, CleanReleases);
      }
      assert items[|items|..] == [] && items[..|items|] == items;
    }

    /** Rebuilds table and pool from what a previous process left in the kernel. `failed` are
        the stale entries whose deletion reported an error, those that are in `broken`, `left` those that are still there;
        the mapper is valid exactly when none is. */
    method Adopt(existing: seq<Mapping>, broken: set<u32>) returns (ghost failed: set<u32>, ghost left: set<u32>)
      requires pool.Valid() && Untouched(pool.View()) && table.m == map[] && pending == []
      requires Lists(existing, fw.m)
      modifies table, pool, fw, clock
      ensures pool.Valid() && pending == []
      ensures Adopted(pool.network, pool.broadcast, existing, |existing|, old(fw.m), View())
      ensures Accounts(pool.network, pool.broadcast, existing, |existing|, old(fw.m), fw.m, failed, left)
      ensures failed == StaleFakes(pool.network, pool.broadcast, existing, |existing|) * broken
      ensures Valid() <==> left == {}
    {
      failed, left := {}, {};
      ghost var lo, hi := pool.network, pool.broadcast;
      AdoptionStart(pool.View(), existing, fw.m, View());
      NoneStale(lo, hi, existing, fw.m);
      hide Adopted, Lists, Accounts, Stale, StaleFakes, Dropped, PoolInv, Inv, MarkAdoptedV;
      for i := 0 to |existing|
        invariant pool.Valid() && pool.network == lo && pool.broadcast == hi && pending == []
        invariant Adopted(lo, hi, existing, i, old(fw.m), View())
        invariant Accounts(lo, hi, existing, i, old(fw.m), fw.m, failed, left)
        invariant failed == StaleFakes(lo, hi, existing, i) * broken
      {
        ghost var before := fw.m;
        var works := existing[i].fake.V4? ==> existing[i].fake.ip !in broken;
        var ok := AdoptEntry(existing, i, works, old(fw.m));
        BrokenSnoc(lo, hi, existing, i, failed, broken, ok, works);
        failed, left := OneMoreStale(lo, hi, existing, i, old(fw.m), before, fw.m, failed, left, ok);
      }
      AdoptionRestores(lo, hi, existing, old(fw.m), View(), failed, left);
    }

    /** The body of adopt's loop. ok is false when a deletion reported an error. */
    method AdoptEntry(existing: seq<Mapping>, i: nat, works: bool, ghost kernel: map<u32, u32>) returns (ok: bool)
      requires pool.Valid() && i < |existing|
      requires Adopted(pool.network, pool.broadcast, existing, i, kernel, View())
      modifies table, pool, fw, clock
      ensures pool.Valid() && pool.network == old(pool.network) && pool.broadcast == old(pool.broadcast)
      ensures Adopted(pool.network, pool.broadcast, existing, i + 1, kernel, View())
      ensures ok <==> works || !Stale(pool.network, pool.broadcast, existing, i)
      ensures Dropped(Stale(pool.network, pool.broadcast, existing, i), existing[i], ok, old(fw.m), fw.m)
    {
      var mp := existing[i];
      ghost var s := View();
      AdoptedFacts(s.pool.network, s.pool.broadcast, existing, i, kernel, s);
      hide Adopted, Keeps, PoolInv;
      ok := true;
      if !mp.fake.V4? || !mp.dest.V4? {
        SkipAdopted(s.pool.network, s.pool.broadcast, existing, i, kernel, s);
        return;
      }
      var fake, dest := mp.fake.ip, mp.dest.ip;
      if !pool.IsInRange(fake) || pool.IsAdopted(fake) || table.Has(dest) {
        ok := fw.Delete([Pair(dest, fake)], works);
        SingleDelete(Pair(dest, fake), s.kernel, fw.m, ok);
        StaleAdopted(s.pool.network, s.pool.broadcast, existing, i, kernel, s, View());
        return;
      }
      pool.MarkAdopted(fake);
      table.Set(dest, fake, clock);
      KeepAdopted(s.pool.network, s.pool.broadcast, existing, i, kernel, s, View());
    }
  }

  lemma {:induction false} UnexpiredMeans(m: map<u32, Lease>, now: int, ttl: nat)
    ensures forall r :: r in Unexpired(m, now - ttl) <==> r in m && now < m[r].lastSeen + ttl
    ensures forall r :: r in Unexpired(m, now - ttl) ==> Unexpired(m, now - ttl)[r] == m[r]
  {
  }

  ghost function FakesInOrder(items: seq<Pair>): (fs: seq<u32>)
    ensures |fs| == |items| && forall i :: 0 <= i < |items| ==> fs[i] == items[i].fake
  {
    seq(|items|, i requires 0 <= i < |items| => items[i].fake)
  }

  lemma {:induction false} FakesSnoc(queue: seq<u32>, items: seq<Pair>, i: nat)
    requires i < |items|
    ensures queue + FakesInOrder(items[..i + 1]) == queue + FakesInOrder(items[..i]) + [items[i].fake]
  {
    assert FakesInOrder(items[..i + 1]) == FakesInOrder(items[..i]) + [items[i].fake];
  }

  lemma {:induction false} SingleDelete(p: Pair, m: map<u32, u32>, m': map<u32, u32>, ok: bool)
    requires ok ==> m' == m - Fakes([p])
    requires !ok ==> exists removed :: removed <= Fakes([p]) && m' == m - removed
    ensures m' == m - {p.fake} || (!ok && m' == m)
  {
    assert Fakes([p]) == {p.fake} by {
      assert [p][0] == p;
    }
    if !ok {
      var removed :| removed <= Fakes([p]) && m' == m - removed;
      assert removed == {} || removed == {p.fake};
    }
  }

  // ---------------------------------------------------------------- adoption

  ghost predicate Untouched(v: PoolView) {
    v.cursor == v.network && v.queue == [] && v.adopted == None
  }

  /** The listing names the kernel's IPv4 mappings, each once, in any order. */
  ghost predicate Lists(list: seq<Mapping>, kernel: map<u32, u32>) {
    && (forall i :: 0 <= i < |list| && BothV4(list[i]) ==>
          list[i].fake.ip in kernel && kernel[list[i].fake.ip] == list[i].dest.ip)
    && (forall f :: f in kernel ==> exists i :: 0 <= i < |list| && list[i] == Mapping(V4(f), V4(kernel[f])))
    && (forall i, j :: 0 <= i < j < |list| && BothV4(list[i]) && BothV4(list[j]) ==> list[i].fake != list[j].fake)
  }

  predicate BothV4(mp: Mapping) {
    mp.fake.V4? && mp.dest.V4?
  }

  predicate Usable(lo: u32, hi: u32, mp: Mapping) {
    BothV4(mp) && lo <= mp.fake.ip < hi
  }

  /** Entry j is the first usable one for its real address. */
  ghost predicate Keeps(lo: u32, hi: u32, list: seq<Mapping>, j: nat)
    requires j < |list|
  {
    Usable(lo, hi, list[j]) && forall k :: 0 <= k < j && Usable(lo, hi, list[k]) ==> list[k].dest != list[j].dest
  }

  /** Entry j is to be dropped: out of range, or its real address is already adopted. */
  ghost predicate Stale(lo: u32, hi: u32, list: seq<Mapping>, j: nat)
    requires j < |list|
  {
    BothV4(list[j]) && !Keeps(lo, hi, list, j)
  }

  ghost function StaleFakes(lo: u32, hi: u32, list: seq<Mapping>, n: nat): set<u32>
    requires n <= |list|
  {
    set j | 0 <= j < n && Stale(lo, hi, list, j) :: list[j].fake.ip
  }

  /** What one turn of the loop does to the kernel. */
  ghost predicate Dropped(stale: bool, mp: Mapping, ok: bool, m: map<u32, u32>, m': map<u32, u32>) {
    if stale then mp.fake.V4? && (m' == m - {mp.fake.ip} || (!ok && m' == m))
    else ok && m' == m
  }

  /** Of the stale entries among the first n, deleting `failed` reported an error, and exactly
      `left`, which are among them, are still in the kernel. */
  ghost predicate Accounts(lo: u32, hi: u32, list: seq<Mapping>, n: nat, kernel: map<u32, u32>, m: map<u32, u32>,
                           failed: set<u32>, left: set<u32>)
    requires n <= |list|
  {
    && left <= failed <= StaleFakes(lo, hi, list, n)
    && m == kernel - (StaleFakes(lo, hi, list, n) - left)
  }

  lemma {:induction false} NoneStale(lo: u32, hi: u32, list: seq<Mapping>, kernel: map<u32, u32>)
    ensures StaleFakes(lo, hi, list, 0) == {} && Accounts(lo, hi, list, 0, kernel, kernel, {}, {})
  {
  }

  /** The accounts, one entry further. */
  lemma {:induction false} OneMoreStale(lo: u32, hi: u32, list: seq<Mapping>, i: nat, kernel: map<u32, u32>,
                      m: map<u32, u32>, m': map<u32, u32>, failed: set<u32>, left: set<u32>, ok: bool)
    returns (failed': set<u32>, left': set<u32>)
    requires i < |list| && Dropped(Stale(lo, hi, list, i), list[i], ok, m, m')
    requires Accounts(lo, hi, list, i, kernel, m, failed, left)
    ensures Accounts(lo, hi, list, i + 1, kernel, m', failed', left')
    ensures failed' == if ok then failed else failed + {list[i].fake.ip}
  {
    StaleFakesStep(lo, hi, list, i);
    hide Stale, StaleFakes;
    failed', left' := failed, left;
    if Stale(lo, hi, list, i) {
      var f := list[i].fake.ip;
      failed' := if ok then failed else failed + {f};
      left' := if f in m' then left + {f} else left - {f};
    }
  }

  lemma {:induction false} BrokenSnoc(lo: u32, hi: u32, list: seq<Mapping>, i: nat, failed: set<u32>, broken: set<u32>, ok: bool, works: bool)
    requires i < |list| && failed == StaleFakes(lo, hi, list, i) * broken
    requires ok <==> works || !Stale(lo, hi, list, i)
    requires works <==> (list[i].fake.V4? ==> list[i].fake.ip !in broken)
    ensures StaleFakes(lo, hi, list, i + 1) * broken == if ok then failed else failed + {list[i].fake.ip}
    ensures !ok ==> list[i].fake.V4?
  {
    StaleFakesStep(lo, hi, list, i);
    hide Stale, StaleFakes;
  }

  lemma {:induction false} StaleFakesStep(lo: u32, hi: u32, list: seq<Mapping>, i: nat)
    requires i < |list|
    ensures StaleFakes(lo, hi, list, i + 1)
         == StaleFakes(lo, hi, list, i) + if Stale(lo, hi, list, i) then {list[i].fake.ip} else {}
    ensures Stale(lo, hi, list, i) ==> list[i].fake.V4?
  {
    hide Keeps;
  }

  ghost predicate KeptDest(lo: u32, hi: u32, list: seq<Mapping>, n: nat, r: u32)
    requires n <= |list|
  {
    exists k :: 0 <= k < n && Keeps(lo, hi, list, k) && list[k].dest == V4(r)
  }

  ghost predicate KeptFake(lo: u32, hi: u32, list: seq<Mapping>, n: nat, a: u32)
    requires n <= |list|
  {
    exists k :: 0 <= k < n && Keeps(lo, hi, list, k) && list[k].fake == V4(a)
  }

  /** The state after the first n entries: exactly the kept ones are in table and pool, and
      of the kernel's entries only others among the first n may be gone. */
  ghost predicate Adopted(lo: u32, hi: u32, list: seq<Mapping>, n: nat, kernel: map<u32, u32>, s: State)
  {
    && n <= |list| && Lists(list, kernel)
    && s.pool.network == s.pool.cursor == lo && s.pool.broadcast == hi && s.pool.queue == []
    && s.flights == map[] && s.touches == map[] && s.clean == Idle && s.pending == []
    && (forall r :: r in s.table ==> KeptDest(lo, hi, list, n, r))
    && (forall a :: a in AdoptedSet(s.pool) ==> KeptFake(lo, hi, list, n, a))
    && (forall k :: 0 <= k < n && Keeps(lo, hi, list, k) ==>
          && list[k].dest.ip in s.table && s.table[list[k].dest.ip].fake == list[k].fake.ip
          && list[k].fake.ip in AdoptedSet(s.pool))
    && (forall f :: f in s.kernel ==> f in kernel && s.kernel[f] == kernel[f])
    && (forall k :: 0 <= k < |list| && BothV4(list[k]) && (n <= k || Keeps(lo, hi, list, k)) ==> list[k].fake.ip in s.kernel)
    && (forall r :: r in s.table ==> s.table[r].lastSeen <= s.now)
  }

  lemma {:induction false} AdoptedFacts(lo: u32, hi: u32, list: seq<Mapping>, n: nat, kernel: map<u32, u32>, s: State)
    requires Adopted(lo, hi, list, n, kernel, s) && n < |list|
    ensures s.pool.network == s.pool.cursor == lo && s.pool.broadcast == hi && s.pool.queue == []
    ensures BothV4(list[n]) ==> list[n].fake.ip !in AdoptedSet(s.pool)
    ensures BothV4(list[n]) ==>
              (Keeps(lo, hi, list, n) <==> lo <= list[n].fake.ip < hi && list[n].dest.ip !in s.table)
  {
    if Usable(lo, hi, list[n]) && !Keeps(lo, hi, list, n) {
      FirstUsable(lo, hi, list, n);
    }
  }

  /** Among usable entries for one real address, the first is kept. */
  lemma {:induction false} FirstUsable(lo: u32, hi: u32, list: seq<Mapping>, n: nat)
    requires n < |list| && Usable(lo, hi, list[n])
    ensures exists k :: 0 <= k <= n && Keeps(lo, hi, list, k) && list[k].dest == list[n].dest
    decreases n
  {
    if !Keeps(lo, hi, list, n) {
      var k :| 0 <= k < n && Usable(lo, hi, list[k]) && list[k].dest == list[n].dest;
      FirstUsable(lo, hi, list, k);
    }
  }

  lemma {:induction false} SkipAdopted(lo: u32, hi: u32, list: seq<Mapping>, n: nat, kernel: map<u32, u32>, s: State)
    requires Adopted(lo, hi, list, n, kernel, s) && n < |list| && !BothV4(list[n])
    ensures Adopted(lo, hi, list, n + 1, kernel, s)
  {
    GrowKept(lo, hi, list, n);
  }

  lemma {:induction false} StaleAdopted(lo: u32, hi: u32, list: seq<Mapping>, n: nat, kernel: map<u32, u32>, s: State, s': State)
    requires Adopted(lo, hi, list, n, kernel, s) && n < |list| && BothV4(list[n])
    requires !Keeps(lo, hi, list, n)
    requires s' == s.(kernel := s'.kernel)
    requires s'.kernel == s.kernel || s'.kernel == s.kernel - {list[n].fake.ip}
    ensures Adopted(lo, hi, list, n + 1, kernel, s')
  {
    hide Keeps;
    GrowKept(lo, hi, list, n);
    OthersDiffer(list, kernel, n);
    hide KeptDest, KeptFake, Lists;
  }

  lemma {:induction false} OthersDiffer(list: seq<Mapping>, kernel: map<u32, u32>, n: nat)
    requires Lists(list, kernel) && n < |list| && BothV4(list[n])
    ensures forall k :: 0 <= k < |list| && k != n && BothV4(list[k]) ==> list[k].fake.ip != list[n].fake.ip
  {
  }

  /** What was kept stays kept as the listing is read on. */
  lemma {:induction false} GrowKept(lo: u32, hi: u32, list: seq<Mapping>, n: nat)
    requires n < |list|
    ensures forall r :: KeptDest(lo, hi, list, n, r) ==> KeptDest(lo, hi, list, n + 1, r)
    ensures forall a :: KeptFake(lo, hi, list, n, a) ==> KeptFake(lo, hi, list, n + 1, a)
    ensures Keeps(lo, hi, list, n) ==> KeptDest(lo, hi, list, n + 1, list[n].dest.ip) && KeptFake(lo, hi, list, n + 1, list[n].fake.ip)
  {
    if Keeps(lo, hi, list, n) {
      assert list[n].dest == V4(list[n].dest.ip) && list[n].fake == V4(list[n].fake.ip);
    }
    hide Keeps;
  }

  lemma {:induction false} KeepAdopted(lo: u32, hi: u32, list: seq<Mapping>, n: nat, kernel: map<u32, u32>, s: State, s': State)
    requires Adopted(lo, hi, list, n, kernel, s) && n < |list| && BothV4(list[n])
    requires Keeps(lo, hi, list, n) && s.now <= s'.now
    requires s' == s.(pool := MarkAdoptedV(s.pool, list[n].fake.ip), now := s'.now,
                      table := s.table[list[n].dest.ip := Lease(list[n].fake.ip, s'.now)])
    ensures Adopted(lo, hi, list, n + 1, kernel, s')
  {
    hide Keeps, KeptDest, KeptFake, Lists;
    KeptDestsDiffer(lo, hi, list, n);
    GrowKept(lo, hi, list, n);
  }

  lemma {:induction false} KeptDestsDiffer(lo: u32, hi: u32, list: seq<Mapping>, n: nat)
    requires n < |list| && Keeps(lo, hi, list, n)
    ensures forall k :: 0 <= k < n && Keeps(lo, hi, list, k) ==> BothV4(list[k]) && list[k].dest.ip != list[n].dest.ip
  {
  }

  /** Every listed entry that is not kept is gone from the kernel. */
  ghost predicate StaleGone(lo: u32, hi: u32, list: seq<Mapping>, s: State) {
    forall k :: 0 <= k < |list| && BothV4(list[k]) && !Keeps(lo, hi, list, k) ==> list[k].fake.ip !in s.kernel
  }

  /** An adoption of the whole listing whose failed deletions left `left` behind. */
  ghost predicate AdoptionEnds(lo: u32, hi: u32, list: seq<Mapping>, kernel: map<u32, u32>, s: State,
                               failed: set<u32>, left: set<u32>) {
    && PoolInv(s.pool) && Adopted(lo, hi, list, |list|, kernel, s)
    && Accounts(lo, hi, list, |list|, kernel, s.kernel, failed, left)
  }

  /** Restart: whatever the previous process left, adoption re-establishes the mapper's
      invariant exactly when no stale entry survives its deletion; then the kernel is the
      inverse of the table. */
  lemma {:induction false} AdoptionRestores(lo: u32, hi: u32, list: seq<Mapping>, kernel: map<u32, u32>, s: State,
                          failed: set<u32>, left: set<u32>)
    requires AdoptionEnds(lo, hi, list, kernel, s, failed, left)
    ensures Inv(s) <==> left == {}
    ensures Inv(s) ==> s.kernel.Keys == LiveFakes(s.table)
                       && forall r :: r in s.table ==> s.kernel[s.table[r].fake] == r
  {
    GoneMeansNoneLeft(lo, hi, list, kernel, s, failed, left);
    GoneRestores(lo, hi, list, kernel, s);
  }

  lemma {:induction false} GoneMeansNoneLeft(lo: u32, hi: u32, list: seq<Mapping>, kernel: map<u32, u32>, s: State,
                           failed: set<u32>, left: set<u32>)
    requires AdoptionEnds(lo, hi, list, kernel, s, failed, left)
    ensures StaleGone(lo, hi, list, s) <==> left == {}
  {
    hide Keeps, PoolInv;
    var all := StaleFakes(lo, hi, list, |list|);
    forall j | 0 <= j < |list| && Stale(lo, hi, list, j)
      ensures list[j].fake.ip in all && list[j].fake.ip in kernel
    {
    }
    assert forall f :: f in left ==> f in all && f in s.kernel;
  }

  lemma {:induction false} GoneRestores(lo: u32, hi: u32, list: seq<Mapping>, kernel: map<u32, u32>, s: State)
    requires PoolInv(s.pool) && Adopted(lo, hi, list, |list|, kernel, s)
    ensures Inv(s) <==> StaleGone(lo, hi, list, s)
    ensures Inv(s) ==> s.kernel.Keys == LiveFakes(s.table)
                       && forall r :: r in s.table ==> s.kernel[s.table[r].fake] == r
  {
    OutstandingIsAdopted(s.pool);
    if StaleGone(lo, hi, list, s) {
      AdoptedPartition(lo, hi, list, kernel, s);
      AdoptedKernel(lo, hi, list, kernel, s);
      hide Keeps, Partition, KernelInv, StaleGone;
      assert LocalInv(s);
    }
    if Inv(s) {
      QuietOwnership(s);
      InvMeansGone(lo, hi, list, kernel, s);
      hide Adopted, Keeps;
      forall r | r in s.table
        ensures s.table[r].fake in s.kernel && s.kernel[s.table[r].fake] == r
      {
        TableMatchesKernel(s, r, r);
      }
    }
  }

  /** The kernel holds nothing stale: every fake is in range and no real address has two. */
  ghost predicate NothingStale(lo: u32, hi: u32, kernel: map<u32, u32>) {
    && (forall f :: f in kernel ==> lo <= f < hi)
    && (forall f, g :: f in kernel && g in kernel && kernel[f] == kernel[g] ==> f == g)
  }

  lemma {:induction false} NothingStaleExactly(lo: u32, hi: u32, list: seq<Mapping>, kernel: map<u32, u32>)
    requires Lists(list, kernel)
    ensures NothingStale(lo, hi, kernel) <==> StaleFakes(lo, hi, list, |list|) == {}
  {
    if NothingStale(lo, hi, kernel) {
      forall j | 0 <= j < |list|
        ensures !Stale(lo, hi, list, j)
      {
      }
    }
    if StaleFakes(lo, hi, list, |list|) == {} {
      forall f, g | f in kernel && g in kernel
        ensures lo <= f < hi && (kernel[f] == kernel[g] ==> f == g)
      {
        var i := KeptEntry(lo, hi, list, kernel, f);
        var j := KeptEntry(lo, hi, list, kernel, g);
        KeptOnce(lo, hi, list, i, j);
      }
    }
  }

  lemma {:induction false} KeptEntry(lo: u32, hi: u32, list: seq<Mapping>, kernel: map<u32, u32>, f: u32) returns (i: nat)
    requires Lists(list, kernel) && StaleFakes(lo, hi, list, |list|) == {} && f in kernel
    ensures i < |list| && list[i] == Mapping(V4(f), V4(kernel[f])) && Keeps(lo, hi, list, i)
  {
    i :| i < |list| && list[i] == Mapping(V4(f), V4(kernel[f]));
    StaleIsIn(lo, hi, list, i);
    hide Keeps, StaleFakes;
  }

  lemma {:induction false} StaleIsIn(lo: u32, hi: u32, list: seq<Mapping>, i: nat)
    requires i < |list| && BothV4(list[i])
    ensures Stale(lo, hi, list, i) ==> list[i].fake.ip in StaleFakes(lo, hi, list, |list|)
  {
  }

  lemma {:induction false} KeptOnce(lo: u32, hi: u32, list: seq<Mapping>, i: nat, j: nat)
    requires i < |list| && j < |list| && Keeps(lo, hi, list, i) && Keeps(lo, hi, list, j)
    ensures lo <= list[i].fake.ip < hi && (list[i].dest == list[j].dest ==> i == j)
  {
  }

  /** For every listing and every choice of stale entries there is an adoption whose
      deletions leave just those. */
  lemma {:induction false} AdoptionRun(v: PoolView, list: seq<Mapping>, kernel: map<u32, u32>, n: nat, left: set<u32>, now: int)
    returns (s: State)
    requires PoolInv(v) && Untouched(v) && Lists(list, kernel) && n <= |list|
    ensures PoolInv(s.pool) && Adopted(v.network, v.broadcast, list, n, kernel, s)
    ensures s.kernel == kernel - (StaleFakes(v.network, v.broadcast, list, n) - left)
    decreases n
  {
    hide Adopted, StaleFakes, Lists, PoolInv;
    if n == 0 {
      s := State(v, map[], kernel, [], map[], map[], Idle, now);
      NoneStale(v.network, v.broadcast, list, kernel);
      AdoptionStart(v, list, kernel, s);
    } else {
      var p := AdoptionRun(v, list, kernel, n - 1, left, now);
      s := AdoptionTurn(v.network, v.broadcast, list, n - 1, kernel, left, p);
    }
  }

  lemma {:induction false} AdoptionStart(v: PoolView, list: seq<Mapping>, kernel: map<u32, u32>, s: State)
    requires Untouched(v) && Lists(list, kernel)
    requires s == State(v, map[], kernel, [], map[], map[], Idle, s.now)
    ensures Adopted(v.network, v.broadcast, list, 0, kernel, s)
  {
    hide Keeps;
  }

  lemma {:induction false} AdoptionTurn(lo: u32, hi: u32, list: seq<Mapping>, i: nat, kernel: map<u32, u32>, left: set<u32>, p: State)
    returns (s: State)
    requires i < |list| && PoolInv(p.pool) && Adopted(lo, hi, list, i, kernel, p)
    requires p.kernel == kernel - (StaleFakes(lo, hi, list, i) - left)
    ensures PoolInv(s.pool) && Adopted(lo, hi, list, i + 1, kernel, s)
    ensures s.kernel == kernel - (StaleFakes(lo, hi, list, i + 1) - left)
  {
    hide Adopted, Keeps, StaleFakes, PoolInv;
    if Stale(lo, hi, list, i) {
      s := AdoptionDrop(lo, hi, list, i, kernel, left, p);
    } else {
      StaleFakesStep(lo, hi, list, i);
      if BothV4(list[i]) {
        s := AdoptionKeep(lo, hi, list, i, kernel, p);
      } else {
        s := p;
        SkipAdopted(lo, hi, list, i, kernel, p);
      }
    }
  }

  lemma {:induction false} AdoptionDrop(lo: u32, hi: u32, list: seq<Mapping>, i: nat, kernel: map<u32, u32>, left: set<u32>, p: State)
    returns (s: State)
    requires i < |list| && Adopted(lo, hi, list, i, kernel, p) && Stale(lo, hi, list, i)
    requires p.kernel == kernel - (StaleFakes(lo, hi, list, i) - left)
    ensures s == p.(kernel := s.kernel) && Adopted(lo, hi, list, i + 1, kernel, s)
    ensures s.kernel == kernel - (StaleFakes(lo, hi, list, i + 1) - left)
  {
    StaleFakesStep(lo, hi, list, i);
    hide Adopted, Keeps, StaleFakes;
    var m := DropOrLeave(kernel, StaleFakes(lo, hi, list, i), left, list[i].fake.ip);
    s := p.(kernel := m);
    StaleAdopted(lo, hi, list, i, kernel, p, s);
  }

  lemma {:induction false} DropOrLeave(kernel: map<u32, u32>, stale: set<u32>, left: set<u32>, f: u32) returns (m: map<u32, u32>)
    ensures m == kernel - (stale + {f} - left)
    ensures var was := kernel - (stale - left); m == was || m == was - {f}
  {
    m := kernel - (stale + {f} - left);
    if f in left {
      assert stale + {f} - left == stale - left;
    } else {
      assert m == kernel - (stale - left) - {f};
    }
  }

  lemma {:induction false} AdoptionKeep(lo: u32, hi: u32, list: seq<Mapping>, i: nat, kernel: map<u32, u32>, p: State)
    returns (s: State)
    requires i < |list| && PoolInv(p.pool) && Adopted(lo, hi, list, i, kernel, p)
    requires BothV4(list[i]) && Keeps(lo, hi, list, i)
    ensures PoolInv(s.pool) && Adopted(lo, hi, list, i + 1, kernel, s) && s.kernel == p.kernel
  {
    AdoptedFacts(lo, hi, list, i, kernel, p);
    hide Adopted, Keeps, PoolInv;
    var f := list[i].fake.ip;
    MarkAdoptedSpec(p.pool, f);
    hide MarkAdoptedV;
    s := p.(pool := MarkAdoptedV(p.pool, f), table := p.table[list[i].dest.ip := Lease(f, p.now)]);
    KeepAdopted(lo, hi, list, i, kernel, p, s);
  }

  /** Known before adopting: the mapper is valid whatever the deletions come to exactly when
      the kernel holds nothing stale. */
  lemma {:induction false} RestartSafeExactly(v: PoolView, list: seq<Mapping>, kernel: map<u32, u32>)
    requires PoolInv(v) && Untouched(v) && Lists(list, kernel)
    ensures (forall s, failed, left :: AdoptionEnds(v.network, v.broadcast, list, kernel, s, failed, left) ==> Inv(s))
            <==> NothingStale(v.network, v.broadcast, kernel)
  {
    var lo, hi := v.network, v.broadcast;
    var all := StaleFakes(lo, hi, list, |list|);
    NothingStaleExactly(lo, hi, list, kernel);
    hide Inv, Lists, StaleFakes, NothingStale;
    forall s, failed, left | AdoptionEnds(lo, hi, list, kernel, s, failed, left)
      ensures Inv(s) <==> left == {}
      ensures left <= all
    {
      AdoptionRestores(lo, hi, list, kernel, s, failed, left);
    }
    var s := AdoptionRun(v, list, kernel, |list|, all, 0);
    assert AdoptionEnds(lo, hi, list, kernel, s, all, all);
  }

  /** Two fakes of one real address, the second of which cannot be deleted: the restarted
      mapper is not valid. */
  lemma {:induction false} FailingListing(v: PoolView, f: u32, g: u32, r: u32) returns (s: State)
    requires PoolInv(v) && Untouched(v) && InRange(v, f) && InRange(v, g) && f != g
    ensures AdoptionEnds(v.network, v.broadcast, [Mapping(V4(f), V4(r)), Mapping(V4(g), V4(r))],
                         map[f := r, g := r], s, {g}, {g})
    ensures !Inv(s)
  {
    var list, kernel := [Mapping(V4(f), V4(r)), Mapping(V4(g), V4(r))], map[f := r, g := r];
    var lo, hi := v.network, v.broadcast;
    assert Lists(list, kernel) by {
      assert list[0] == Mapping(V4(f), V4(kernel[f])) && list[1] == Mapping(V4(g), V4(kernel[g]));
    }
    assert Keeps(lo, hi, list, 0) && Stale(lo, hi, list, 1);
    assert StaleFakes(lo, hi, list, 2) == {g};
    hide Inv, Adopted, Keeps, Lists, StaleFakes, PoolInv;
    s := AdoptionRun(v, list, kernel, 2, {g}, 0);
    AdoptionRestores(lo, hi, list, kernel, s, {g}, {g});
  }

  lemma {:induction false} InvMeansGone(lo: u32, hi: u32, list: seq<Mapping>, kernel: map<u32, u32>, s: State)
    requires Adopted(lo, hi, list, |list|, kernel, s)
    requires s.kernel.Keys <= AdoptedSet(s.pool)
    ensures StaleGone(lo, hi, list, s)
  {
    hide Keeps;
    forall k | 0 <= k < |list| && BothV4(list[k]) && list[k].fake.ip in s.kernel
      ensures Keeps(lo, hi, list, k)
    {
      assert KeptFake(lo, hi, list, |list|, list[k].fake.ip);
      var j :| 0 <= j < |list| && Keeps(lo, hi, list, j) && list[j].fake == V4(list[k].fake.ip);
      KeptIsV4(lo, hi, list, j);
      SameFakeSameEntry(list, kernel, j, k);
    }
  }

  lemma {:induction false} SameFakeSameEntry(list: seq<Mapping>, kernel: map<u32, u32>, j: nat, k: nat)
    requires Lists(list, kernel) && j < |list| && k < |list|
    requires BothV4(list[j]) && BothV4(list[k]) && list[j].fake == list[k].fake
    ensures j == k
  {
  }

  lemma {:induction false} KeptIsV4(lo: u32, hi: u32, list: seq<Mapping>, j: nat)
    requires j < |list| && Keeps(lo, hi, list, j)
    ensures BothV4(list[j])
  {
  }

  lemma {:induction false} OutstandingIsAdopted(v: PoolView)
    requires PoolInv(v) && v.cursor == v.network && v.queue == []
    ensures Outstanding(v) == AdoptedSet(v)
  {
  }

  /** A table entry comes from a kept entry of the listing, and that from the kernel. */
  lemma {:induction false} TableEntryKept(lo: u32, hi: u32, list: seq<Mapping>, kernel: map<u32, u32>, s: State, r: u32)
    requires Adopted(lo, hi, list, |list|, kernel, s) && r in s.table
    ensures var f := s.table[r].fake; f in kernel && kernel[f] == r && f in AdoptedSet(s.pool) && f in s.kernel
  {
    assert KeptDest(lo, hi, list, |list|, r);
    var k :| 0 <= k < |list| && Keeps(lo, hi, list, k) && list[k].dest == V4(r);
    KeptIsV4(lo, hi, list, k);
    hide Keeps, KeptDest, KeptFake;
  }

  lemma {:induction false} AdoptedHasEntry(lo: u32, hi: u32, list: seq<Mapping>, kernel: map<u32, u32>, s: State, f: u32)
    returns (r: u32)
    requires Adopted(lo, hi, list, |list|, kernel, s) && f in AdoptedSet(s.pool)
    ensures r in s.table && s.table[r].fake == f
  {
    assert KeptFake(lo, hi, list, |list|, f);
    var k :| 0 <= k < |list| && Keeps(lo, hi, list, k) && list[k].fake == V4(f);
    KeptIsV4(lo, hi, list, k);
    hide Keeps, KeptDest, KeptFake, Lists;
    r := list[k].dest.ip;
  }

  lemma {:induction false} OnlyTableOwns(lo: u32, hi: u32, list: seq<Mapping>, kernel: map<u32, u32>, s: State, o: Owner, f: u32)
    requires Adopted(lo, hi, list, |list|, kernel, s) && Owns(s, o, f)
    ensures o.ByTable? && o.dest in s.table && s.table[o.dest].fake == f
  {
  }

  lemma {:induction false} AdoptedPartition(lo: u32, hi: u32, list: seq<Mapping>, kernel: map<u32, u32>, s: State)
    requires PoolInv(s.pool) && Adopted(lo, hi, list, |list|, kernel, s)
    ensures Partition(s)
  {
    OutstandingIsAdopted(s.pool);
    hide Adopted, PoolInv, AdoptedSet, Outstanding;
    forall o, f | Owns(s, o, f)
      ensures o.ByTable? && f in kernel && kernel[f] == o.dest && f in Outstanding(s.pool)
    {
      OnlyTableOwns(lo, hi, list, kernel, s, o, f);
      TableEntryKept(lo, hi, list, kernel, s, o.dest);
    }
    forall f | f in Outstanding(s.pool)
      ensures exists o :: Owns(s, o, f)
    {
      var r := AdoptedHasEntry(lo, hi, list, kernel, s, f);
      assert Owns(s, ByTable(r), f);
    }
  }

  lemma {:induction false} AdoptedKernel(lo: u32, hi: u32, list: seq<Mapping>, kernel: map<u32, u32>, s: State)
    requires PoolInv(s.pool) && Adopted(lo, hi, list, |list|, kernel, s)
    requires StaleGone(lo, hi, list, s)
    ensures KernelInv(s)
  {
    OutstandingIsAdopted(s.pool);
    forall f | f in s.kernel
      ensures f in kernel && s.kernel[f] == kernel[f] && f in AdoptedSet(s.pool)
    {
      var k :| 0 <= k < |list| && list[k] == Mapping(V4(f), V4(kernel[f]));
      assert Keeps(lo, hi, list, k);
    }
    hide Adopted, PoolInv, AdoptedSet, Outstanding, StaleGone;
    forall o, f | Owns(s, o, f)
      ensures KernelAgrees(s, o, f)
    {
      OnlyTableOwns(lo, hi, list, kernel, s, o, f);
      TableEntryKept(lo, hi, list, kernel, s, o.dest);
    }
  }

  /** When the usable entries have pairwise different real addresses, each is recovered. */
  lemma {:induction false} EveryMappingRecovered(lo: u32, hi: u32, list: seq<Mapping>, kernel: map<u32, u32>, s: State, f: u32)
    requires Adopted(lo, hi, list, |list|, kernel, s)
    requires forall i, j :: 0 <= i < j < |list| && Usable(lo, hi, list[i]) && Usable(lo, hi, list[j]) ==>
               list[i].dest != list[j].dest
    requires f in kernel && lo <= f < hi
    ensures kernel[f] in s.table && s.table[kernel[f]].fake == f
    ensures f in s.kernel && s.kernel[f] == kernel[f]
  {
    var k :| 0 <= k < |list| && list[k] == Mapping(V4(f), V4(kernel[f]));
    assert Keeps(lo, hi, list, k);
  }

  ghost function LiveFakes(table: map<u32, Lease>): set<u32> {
    set r | r in table :: table[r].fake
  }

  /** With nothing in flight and nothing pending, the addresses out of the pool, and those in
      the kernel, are the fakes of the table. */
  lemma {:induction false} QuietOwnership(s: State)
    requires Inv(s) && s.flights == map[] && s.clean == Idle && s.pending == []
    ensures Outstanding(s.pool) == LiveFakes(s.table) == s.kernel.Keys
  {
    forall f
      ensures f in Outstanding(s.pool) <==> f in LiveFakes(s.table)
      ensures f in LiveFakes(s.table) ==> f in s.kernel
    {
      if f in Outstanding(s.pool) {
        var o :| Owns(s, o, f);
        assert o.ByTable?;
      }
      if f in LiveFakes(s.table) {
        var r :| r in s.table && s.table[r].fake == f;
        assert Owns(s, ByTable(r), f) && KernelAgrees(s, ByTable(r), f);
      }
    }
  }

  lemma {:induction false} HeadOutstanding(s: State)
    requires Inv(s) && s.clean.Releasing? && s.clean.rest != []
    ensures s.clean.rest[0].fake in Outstanding(s.pool)
  {
    assert Owns(s, ByClean(0), s.clean.rest[0].fake);
  }

  /** From a quiet state through the expiry. */
  lemma {:induction false} ExpireRun(s: State, ttl: nat, t: int, out: seq<Pair>) returns (s3: State)
    requires Inv(s) && s.clean == Idle && s.touches == map[] && s.now <= t
    requires ListsExpired(s.table, t - ttl, out)
    ensures Inv(s3) && Reaches(s, s3, ttl)
    ensures s3 == s.(now := t, table := Unexpired(s.table, t - ttl),
                     pending := if s.pending + out == [] then [] else s.pending,
                     clean := if s.pending + out == [] then Idle else Deleting(s.pending + out))
  {
    hide Inv, Reaches;
    var s1 := s.(now := t);
    assert Tick(s, s1);
    ReachesSelf(s, ttl);
    Extend(s, s, s1, ttl, Ticks);
    var s2 := s1.(clean := Cutting(t - ttl));
    assert CleanStart(s1, s2, ttl);
    Extend(s, s1, s2, ttl, CleanStarts);
    hide ListsExpired, Unexpired;
    s3 := s.(now := t, table := Unexpired(s.table, t - ttl),
             pending := if s.pending + out == [] then [] else s.pending,
             clean := if s.pending + out == [] then Idle else Deleting(s.pending + out));
    assert CleanExpire(s2, s3, out);
    Extend(s, s2, s3, ttl, CleanExpires(out));
  }

  lemma {:induction false} FreshOutstanding(v: PoolView, ip: u32)
    requires PoolInv(v) && AllocateV(v).1 == Some(ip)
    ensures ip in Outstanding(AllocateV(v).0) && ip !in Outstanding(v)
    ensures PoolInv(AllocateV(v).0)
    ensures Outstanding(ReleaseV(AllocateV(v).0, ip)) == Outstanding(v)
  {
    AllocateSpec(v);
    ReleaseSpec(AllocateV(v).0, ip);
  }

  /** One more step of a run that keeps the invariant. */
  lemma {:induction false} Extend(s: State, s1: State, s2: State, ttl: nat, step: Step)
    requires Reaches(s, s1, ttl) && Inv(s1) && NextBy(s1, s2, ttl, step)
    ensures Reaches(s, s2, ttl) && Inv(s2)
  {
    StepKeepsInv(s1, s2, ttl, step);
    ReachesStep(s, s1, s2, ttl, step);
  }

  /** A flight that misses in the table. */
  lemma {:induction false} MissRun(s: State, ttl: nat, dest: u32) returns (s2: State)
    requires Inv(s) && s.flights == map[] && dest !in s.table
    ensures Reaches(s, s2, ttl) && Inv(s2)
    ensures s2 == s.(flights := map[dest := Missed])
  {
    var s1 := s.(flights := map[dest := Entered]);
    assert FlightEnter(s, s1, dest);
    s2 := s.(flights := map[dest := Missed]);
    assert FlightMiss(s1, s2, dest);
    hide Inv, Reaches;
    ReachesSelf(s, ttl);
    Extend(s, s, s1, ttl, Enters(dest));
    Extend(s, s1, s2, ttl, Misses(dest));
  }

  lemma {:induction false} ExhaustedRun(s: State, s': State, ttl: nat, dest: u32)
    requires Inv(s) && s.flights == map[] && dest !in s.table
    requires AllocateV(s.pool).1.None? && s' == s.(pool := AllocateV(s.pool).0)
    ensures Inv(s') && Reaches(s, s', ttl)
  {
    hide Inv, Reaches, AllocateV;
    var s2 := MissRun(s, ttl, dest);
    assert s2.flights - {dest} == map[];
    assert FlightAllocate(s2, s', dest);
    Extend(s, s2, s', ttl, Allocates(dest));
  }

  lemma {:induction false} AllocatedRun(s: State, ttl: nat, dest: u32, ip: u32) returns (s3: State)
    requires Inv(s) && s.flights == map[] && dest !in s.table
    requires AllocateV(s.pool).1 == Some(ip)
    ensures Inv(s3) && Reaches(s, s3, ttl)
    ensures s3 == s.(pool := AllocateV(s.pool).0, flights := map[dest := Allocated(ip)])
  {
    hide Inv, Reaches, AllocateV;
    var s2 := MissRun(s, ttl, dest);
    s3 := s.(pool := AllocateV(s.pool).0, flights := map[dest := Allocated(ip)]);
    assert FlightAllocate(s2, s3, dest);
    Extend(s, s2, s3, ttl, Allocates(dest));
  }

  lemma {:induction false} AddFailsRun(s: State, s': State, ttl: nat, dest: u32, ip: u32)
    requires Inv(s) && s.flights == map[] && dest !in s.table
    requires AllocateV(s.pool).1 == Some(ip)
    requires s' == s.(pool := ReleaseV(AllocateV(s.pool).0, ip))
    ensures Inv(s') && Reaches(s, s', ttl)
  {
    hide Inv, Reaches, AllocateV, ReleaseV;
    var s3 := AllocatedRun(s, ttl, dest, ip);
    var s4 := s3.(flights := map[dest := AddFailed(ip)]);
    assert FlightAdd(s3, s4, dest);
    Extend(s, s3, s4, ttl, Adds(dest));
    assert s4.flights - {dest} == map[];
    assert FlightRelease(s4, s', dest);
    Extend(s, s4, s', ttl, Releases(dest));
  }

  lemma {:induction false} MappedRun(s: State, s': State, ttl: nat, dest: u32, ip: u32)
    requires Inv(s) && s.flights == map[] && s.touches == map[] && dest !in s.table && s.now <= s'.now
    requires AllocateV(s.pool).1 == Some(ip)
    requires s' == s.(pool := AllocateV(s.pool).0, kernel := s.kernel[ip := dest],
                      table := s.table[dest := Lease(ip, s'.now)], now := s'.now)
    ensures Inv(s') && Reaches(s, s', ttl)
  {
    hide Inv, Reaches, AllocateV;
    var s3 := AllocatedRun(s, ttl, dest, ip);
    var s4 := s3.(kernel := s.kernel[ip := dest], flights := map[dest := Added(ip)]);
    assert FlightAdd(s3, s4, dest);
    Extend(s, s3, s4, ttl, Adds(dest));
    var s5 := s4.(now := s'.now);
    assert Tick(s4, s5);
    Extend(s, s4, s5, ttl, Ticks);
    var s6 := s5.(flights := map[dest := Stamped(ip, s'.now)]);
    assert FlightStamp(s5, s6, dest);
    Extend(s, s5, s6, ttl, Stamps(dest));
    assert s6.flights - {dest} == map[];
    assert FlightSet(s6, s', dest);
    Extend(s, s6, s', ttl, Sets(dest));
  }

  /** A lookup that finds its entry, start to end. */
  lemma {:induction false} TouchRun(s: State, s': State, ttl: nat, dest: u32)
    requires Inv(s) && dest in s.table && s.touches == map[] && s.now <= s'.now
    requires s' == s.(table := s.table[dest := Lease(s.table[dest].fake, s'.now)], now := s'.now)
    ensures Inv(s') && Reaches(s, s', ttl)
  {
    var s1 := s.(now := s'.now);
    var s2 := s1.(touches := s1.touches[0 := Touch(dest, s1.now)]);
    assert NextBy(s, s1, ttl, Ticks);
    assert NextBy(s1, s2, ttl, StartsTouch(0, dest));
    assert s2.touches - {0} == map[];
    assert NextBy(s2, s', ttl, StoresTouch(0));
    StepKeepsInv(s, s1, ttl, Ticks);
    StepKeepsInv(s1, s2, ttl, StartsTouch(0, dest));
    StepKeepsInv(s2, s', ttl, StoresTouch(0));
    ReachesSelf(s, ttl);
    ReachesStep(s, s, s1, ttl, Ticks);
    ReachesStep(s, s1, s2, ttl, StartsTouch(0, dest));
    ReachesStep(s, s2, s', ttl, StoresTouch(0));
  }
}
