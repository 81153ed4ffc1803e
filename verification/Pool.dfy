// The fake-address allocator (pool.go): a cursor over the range, a FIFO queue of released
// addresses with a moving head, and the set of addresses adopted from a previous run.
module Pool {
  import opened Bytes

  type u32 = x: int | 0 <= x < 0x1_0000_0000

  const MAX_U32: u32 := 0xFFFF_FFFF

  /** What the allocator is about: `queue` is the unread part of the freed buffer. */
  datatype PoolView = PoolView(network: u32, cursor: u32, broadcast: u32,
                               queue: seq<u32>, adopted: Option<set<u32>>, maxAdopt: u32)

  // ---------------------------------------------------------------- ownership

  ghost function AdoptedSet(v: PoolView): set<u32> {
    if v.adopted.Some? then v.adopted.value else {}
  }

  ghost function Range(v: PoolView): set<u32> {
    set a: u32 | v.network <= a < v.broadcast && InRange(v, a)
  }

  predicate InRange(v: PoolView, a: u32) {
    v.network <= a < v.broadcast
  }

  /** Addresses that have left the untouched part of the range. */
  ghost function Issued(v: PoolView): set<u32> {
    set a: u32 | v.network <= a < v.broadcast && (a < v.cursor || a in AdoptedSet(v))
  }

  ghost function Queued(v: PoolView): set<u32> {
    set a | a in v.queue
  }

  /** Addresses handed out or adopted, and not released since. */
  ghost function Outstanding(v: PoolView): set<u32> {
    Issued(v) - Queued(v)
  }

  ghost predicate Distinct(q: seq<u32>) {
    forall i, j :: 0 <= i < j < |q| ==> q[i] != q[j]
  }

  ghost predicate PoolInv(v: PoolView) {
    && v.network <= v.cursor <= v.broadcast
    && Distinct(v.queue)
    && Queued(v) <= Issued(v)
    && (forall a :: a in AdoptedSet(v) ==> v.network <= a < v.broadcast && a <= v.maxAdopt)
  }

  // ---------------------------------------------------------------- the operations on the view

  ghost function AllocateV(v: PoolView): (PoolView, Option<u32>)
    decreases v.broadcast - v.cursor
  {
    if v.queue != [] then (v.(queue := v.queue[1..]), Some(v.queue[0]))
    else if v.cursor >= v.broadcast then (v, None)
    else
      var ip := v.cursor;
      var v' := v.(cursor := ip + 1);
      if v.adopted.None? then (v', Some(ip))
      else
        var v'' := if ip + 1 > v.maxAdopt then v'.(adopted := None) else v';
        if ip in v.adopted.value then AllocateV(v'') else (v'', Some(ip))
  }

  ghost function ReleaseV(v: PoolView, ip: u32): PoolView {
    v.(queue := v.queue + [ip])
  }

  ghost function MarkAdoptedV(v: PoolView, ip: u32): PoolView {
    v.(adopted := Some(AdoptedSet(v) + {ip}), maxAdopt := if ip > v.maxAdopt then ip else v.maxAdopt)
  }

  /** Allocation hands out an address that was not outstanding, and makes only it outstanding.
      It fails only when the whole range is outstanding. */
  lemma {:induction false} AllocateSpec(v: PoolView)
    requires PoolInv(v)
    ensures var (v', r) := AllocateV(v);
            && PoolInv(v') && v'.network == v.network && v'.broadcast == v.broadcast
            && (r.Some? ==> InRange(v, r.value) && r.value !in Outstanding(v)
                            && Outstanding(v') == Outstanding(v) + {r.value})
            && (r.None? ==> Outstanding(v) == Range(v) && Outstanding(v') == Outstanding(v))
    decreases v.broadcast - v.cursor
  {
    assert forall a :: a in Range(v) <==> InRange(v, a);
    if v.queue != [] {
      HeadLeaves(v);
    } else if v.cursor >= v.broadcast {
      assert Queued(v) == {};
      assert forall a :: a in Outstanding(v) <==> a in Range(v);
    } else {
      CursorMoves(v);
      var ip := v.cursor;
      if v.adopted.Some? && ip in v.adopted.value {
        var v' := v.(cursor := ip + 1);
        var v'' := if ip + 1 > v.maxAdopt then v'.(adopted := None) else v';
        assert Outstanding(v'') == Outstanding(v);
        assert Range(v'') == Range(v);
        AllocateSpec(v'');
      }
    }
  }

  lemma {:induction false} HeadLeaves(v: PoolView)
    requires PoolInv(v) && v.queue != []
    ensures var v' := v.(queue := v.queue[1..]);
            && PoolInv(v') && InRange(v, v.queue[0]) && v.queue[0] !in Outstanding(v)
            && Outstanding(v') == Outstanding(v) + {v.queue[0]}
  {
    var v' := v.(queue := v.queue[1..]);
    var ip := v.queue[0];
    assert ip in Queued(v);
    assert Issued(v') == Issued(v);
    forall a
      ensures a in Queued(v') <==> a in Queued(v) && a != ip
    {
      if a in Queued(v') {
        var i :| 0 <= i < |v'.queue| && v'.queue[i] == a;
        assert v.queue[i + 1] == a;
      }
      if a in Queued(v) && a != ip {
        var i :| 0 <= i < |v.queue| && v.queue[i] == a;
        assert v'.queue[i - 1] == a;
      }
    }
  }

  /** The cursor's step issues exactly the address it leaves, unless that was adopted; the
      adopted set can go once the cursor is past its largest member. */
  lemma {:induction false} CursorMoves(v: PoolView)
    requires PoolInv(v) && v.queue == [] && v.cursor < v.broadcast
    ensures var v' := v.(cursor := v.cursor + 1);
            && PoolInv(v') && Issued(v') == Issued(v) + {v.cursor}
            && (v.cursor in Issued(v) <==> v.cursor in AdoptedSet(v))
            && (v.cursor + 1 > v.maxAdopt ==>
                  PoolInv(v'.(adopted := None)) && Issued(v'.(adopted := None)) == Issued(v'))
            && Queued(v) == Queued(v') == {}
  {
  }

  /** Allocation fails exactly when the range is exhausted. */
  lemma {:induction false} AllocateFailsExactly(v: PoolView)
    requires PoolInv(v)
    ensures AllocateV(v).1.None? <==> Outstanding(v) == Range(v)
  {
    AllocateSpec(v);
    hide AllocateV, Outstanding;
    var r := AllocateV(v).1;
    if r.Some? {
      assert r.value in Range(v);
    }
  }

  lemma {:induction false} ReleaseSpec(v: PoolView, ip: u32)
    requires PoolInv(v) && ip in Outstanding(v)
    ensures PoolInv(ReleaseV(v, ip))
    ensures Outstanding(ReleaseV(v, ip)) == Outstanding(v) - {ip}
  {
    var v' := ReleaseV(v, ip);
    assert AdoptedSet(v') == AdoptedSet(v) && Issued(v') == Issued(v);
    forall a
      ensures a in Queued(v') <==> a in Queued(v) || a == ip
    {
      if a in Queued(v) {
        var i :| 0 <= i < |v.queue| && v.queue[i] == a;
        assert v'.queue[i] == a;
      }
      assert v'.queue[|v.queue|] == ip;
    }
    forall i, j | 0 <= i < j < |v'.queue|
      ensures v'.queue[i] != v'.queue[j]
    {
      assert v.queue[i] in Queued(v);
    }
  }

  lemma {:induction false} MarkAdoptedSpec(v: PoolView, ip: u32)
    requires PoolInv(v) && InRange(v, ip) && v.cursor <= ip && ip !in v.queue
    ensures PoolInv(MarkAdoptedV(v, ip))
    ensures Outstanding(MarkAdoptedV(v, ip)) == Outstanding(v) + {ip}
  {
  }

  // ---------------------------------------------------------------- first released, first reused

  /** What a caller sees of the pool: an address given back, or the outcome of an allocation. */
  datatype Event = Gives(ip: u32) | Gets(r: Option<u32>)

  ghost predicate History(vs: seq<PoolView>, es: seq<Event>) {
    |vs| == |es| + 1 && forall i :: 0 <= i < |es| ==> Happens(vs[i], vs[i + 1], es[i])
  }

  ghost predicate Happens(v: PoolView, v': PoolView, e: Event) {
    match e
    case Gives(ip) => v' == ReleaseV(v, ip)
    case Gets(r) => (v', r) == AllocateV(v)
  }

  /** The addresses given back by the first n events, in order. */
  ghost function Given(es: seq<Event>, n: nat): seq<u32>
    requires n <= |es|
  {
    if n == 0 then []
    else match es[n - 1]
         case Gives(ip) => Given(es, n - 1) + [ip]
         case Gets(_) => Given(es, n - 1)
  }

  /** How many of the first n events were allocations made while some of the `waiting`
      addresses, or of those given back since, had not been handed out again. */
  ghost function Reuses(es: seq<Event>, waiting: nat, n: nat): (k: nat)
    requires n <= |es|
    ensures k <= waiting + |Given(es, n)|
  {
    if n == 0 then 0
    else
      var k := Reuses(es, waiting, n - 1);
      if es[n - 1].Gets? && k < waiting + |Given(es, n - 1)| then k + 1 else k
  }

  /** Over any history, an allocation made while given-back addresses wait returns the one
      that has waited longest: the k-th such allocation returns the k-th address. */
  lemma {:induction false} FirstGivenFirstReused(vs: seq<PoolView>, es: seq<Event>, n: nat)
    requires History(vs, es) && n < |es| && es[n].Gets?
    requires Reuses(es, |vs[0].queue|, n) < |vs[0].queue| + |Given(es, n)|
    ensures es[n].r == Some((vs[0].queue + Given(es, n))[Reuses(es, |vs[0].queue|, n)])
  {
    QueueIsRest(vs, es, n);
    assert Happens(vs[n], vs[n + 1], es[n]);
  }

  lemma {:induction false} QueueIsRest(vs: seq<PoolView>, es: seq<Event>, n: nat)
    requires History(vs, es) && n <= |es|
    ensures vs[n].queue == (vs[0].queue + Given(es, n))[Reuses(es, |vs[0].queue|, n)..]
    decreases n
  {
    if n > 0 {
      QueueIsRest(vs, es, n - 1);
      assert Happens(vs[n - 1], vs[n], es[n - 1]);
      var all, k := vs[0].queue + Given(es, n - 1), Reuses(es, |vs[0].queue|, n - 1);
      match es[n - 1] {
        case Gives(ip) =>
          RestSnoc(vs[0].queue, Given(es, n - 1), ip, k);
        case Gets(_) =>
          if k < |all| {
            assert all[k..][1..] == all[k + 1..];
          } else {
            AllocateKeepsEmpty(vs[n - 1]);
          }
      }
    }
  }

  lemma {:induction false} RestSnoc(a: seq<u32>, b: seq<u32>, ip: u32, k: nat)
    requires k <= |a| + |b|
    ensures (a + b)[k..] + [ip] == (a + (b + [ip]))[k..]
  {
  }

  lemma {:induction false} AllocateKeepsEmpty(v: PoolView)
    requires v.queue == []
    ensures AllocateV(v).0.queue == []
    decreases v.broadcast - v.cursor
  {
    if v.cursor < v.broadcast && v.adopted.Some? && v.cursor in v.adopted.value {
      var v' := v.(cursor := v.cursor + 1);
      AllocateKeepsEmpty(if v.cursor + 1 > v.maxAdopt then v'.(adopted := None) else v');
    }
  }

  /** With nothing waiting, allocation returns the lowest address not issued yet. */
  lemma {:induction false} FreshIsLowest(v: PoolView)
    requires PoolInv(v) && v.queue == []
    ensures match AllocateV(v).1
            case Some(ip) => InRange(v, ip) && ip !in Issued(v) && forall a: u32 :: v.network <= a < ip ==> a in Issued(v)
            case None => forall a: u32 :: InRange(v, a) ==> a in Issued(v)
    decreases v.broadcast - v.cursor
  {
    if v.cursor < v.broadcast {
      CursorMoves(v);
      if v.adopted.Some? && v.cursor in v.adopted.value {
        var v' := v.(cursor := v.cursor + 1);
        var v'' := if v.cursor + 1 > v.maxAdopt then v'.(adopted := None) else v';
        assert Issued(v'') == Issued(v);
        FreshIsLowest(v'');
      }
    }
  }

  /** Once the cursor is past every adopted address, the adopted set is dropped. */
  lemma {:induction false} AdoptedGoes(v: PoolView)
    requires v.queue == [] && v.cursor < v.broadcast && AllocateV(v).0.cursor > v.maxAdopt
    ensures AllocateV(v).0.adopted == None
    decreases v.broadcast - v.cursor
  {
    if v.adopted.Some? && v.cursor in v.adopted.value {
      var v' := v.(cursor := v.cursor + 1);
      var v'' := if v.cursor + 1 > v.maxAdopt then v'.(adopted := None) else v';
      if v''.cursor < v''.broadcast {
        AdoptedGoes(v'');
      }
    }
  }

  // ---------------------------------------------------------------- the size of the queue

  lemma {:induction false} RangeSize(lo: nat, hi: nat, s: set<u32>)
    requires lo <= hi && forall a :: a in s ==> lo <= a < hi
    ensures |s| <= hi - lo
    decreases hi - lo
  {
    if lo < hi {
      RangeSize(lo, hi - 1, s - {hi - 1});
    } else {
      assert s == {};
    }
  }

  /** The range holds broadcast - network addresses, so that many can be out at once. */
  lemma {:induction false} RangeIsCapacity(v: PoolView)
    requires v.network <= v.broadcast
    ensures |Range(v)| == v.broadcast - v.network
    decreases v.broadcast - v.network
  {
    if v.network < v.broadcast {
      var less := v.(broadcast := v.broadcast - 1);
      RangeIsCapacity(less);
      assert Range(v) == Range(less) + {v.broadcast - 1};
    } else {
      assert Range(v) == {};
    }
  }

  lemma {:induction false} DistinctSize(q: seq<u32>, s: set<u32>)
    requires Distinct(q) && forall i :: 0 <= i < |q| ==> q[i] in s
    ensures |q| <= |s|
    decreases |q|
  {
    if q != [] {
      var n := |q| - 1;
      DistinctSize(q[..n], s - {q[n]});
    }
  }

  lemma {:induction false} QueueFits(v: PoolView)
    requires PoolInv(v)
    ensures |v.queue| <= v.broadcast - v.network
  {
    assert forall i :: 0 <= i < |v.queue| ==> v.queue[i] in Queued(v);
    DistinctSize(v.queue, Issued(v));
    RangeSize(v.network, v.broadcast, Issued(v));
  }

  // ---------------------------------------------------------------- the pool itself

  function Pow2(n: nat): (r: nat)
    ensures r > 0
  {
    if n == 0 then 1 else 2 * Pow2(n - 1)
  }

  lemma {:induction false} Pow2Is32()
    ensures Pow2(32) == 0x1_0000_0000
  {
    assert Pow2(8) == 256;
    assert Pow2(16) == 0x1_0000;
    assert Pow2(24) == 0x100_0000;
  }

  /** addr with its low bits cleared: the start of its block of `size` addresses. */
  function Masked(addr: u32, size: nat): int
    requires size > 0
  {
    addr / size * size
  }

  class IpPool {
    var network: u32
    var cursor: u32
    var broadcast: u32
    var freed: seq<u32>
    var head: nat
    var adopted: Option<set<u32>>
    var maxAdopt: u32

    ghost var moved: nat   // elements shifted by compaction so far
    ghost var served: nat  // allocations answered from the queue so far

    ghost function View(): PoolView
      reads this
      requires head <= |freed|
    {
      PoolView(network, cursor, broadcast, freed[head..], adopted, maxAdopt)
    }

    /** The buffer stays within twice the capacity, and compaction has moved no more
        elements than allocations were served from the queue. */
    ghost predicate Valid()
      reads this
    {
      && head <= |freed|
      && PoolInv(View())
      && |freed| <= 2 * (broadcast - network)
      && moved + head <= served
    }

    /** newIPPool for a prefix of `bits` bits around addr. */
    constructor (addr: u32, bits: nat)
      requires bits <= 32
      ensures Valid() && moved == served == 0
      ensures View() == PoolView(network, network, broadcast, [], None, 0)
      ensures network <= addr <= broadcast
      ensures network % Pow2(32 - bits) == 0 && broadcast - network == Pow2(32 - bits) - 1
    {
      var size := Pow2(32 - bits);
      Pow2Is32();
      Pow2Splits(32 - bits, bits);
      AlignedBlock(addr, size, Pow2(bits));
      hide Pow2, Masked;
      // the low bits of the network address are zero, so or-ing the wildcard in adds it
      network := Masked(addr, size);
      cursor := Masked(addr, size);
      broadcast := Masked(addr, size) + (size - 1);
      freed := [];
      head := 0;
      adopted := None;
      maxAdopt := 0;
      moved := 0;
      served := 0;
    }

    predicate IsInRange(ip: u32)
      reads this
    {
      network <= ip < broadcast
    }

    predicate IsAdopted(ip: u32)
      reads this
    {
      adopted.Some? && ip in adopted.value
    }

    method MarkAdopted(ip: u32)
      requires Valid() && InRange(View(), ip) && cursor <= ip && ip !in freed[head..]
      modifies this
      ensures Valid() && View() == MarkAdoptedV(old(View()), ip)
      ensures moved == old(moved) && served == old(served)
    {
      MarkAdoptedSpec(View(), ip);
      if adopted.None? {
        adopted := Some({});
      }
      adopted := Some(adopted.value + {ip});
      if ip > maxAdopt {
        maxAdopt := ip;
      }
      assert View() == MarkAdoptedV(old(View()), ip);
    }

    method Allocate() returns (ip: u32, ok: bool)
      requires Valid()
      modifies this
      ensures Valid()
      ensures (View(), if ok then Some(ip) else None) == AllocateV(old(View()))
      ensures !ok ==> ip == 0
      ensures moved == old(moved)
      ensures served == old(served) + if old(head) < |old(freed)| then 1 else 0
    {
      AllocateSpec(View());
      assert network <= cursor <= broadcast;
      hide PoolInv, Outstanding, Range;
      if head < |freed| {
        ip := freed[head];
        assert freed[head..][1..] == freed[head + 1..];
        head := head + 1;
        served := served + 1;
        if head == |freed| {
          freed := freed[..0];
          head := 0;
        }
        ok := true;
        return;
      }
      while cursor < broadcast
        invariant network <= cursor <= broadcast
        invariant freed == old(freed) && head == old(head) == |freed| && moved == old(moved) && served == old(served)
        invariant network == old(network) && broadcast == old(broadcast)
        invariant AllocateV(View()) == AllocateV(old(View()))
        decreases broadcast - cursor
      {
        ip := cursor;
        cursor := cursor + 1;
        if adopted.None? {
          ok := true;
          return;
        }
        var taken := ip in adopted.value;
        if cursor > maxAdopt {
          adopted := None;
        }
        if taken {
          continue;
        }
        ok := true;
        return;
      }
      ip, ok := 0, false;
    }

    method Release(ip: u32)
      requires Valid() && ip in Outstanding(View())
      modifies this
      ensures Valid() && View() == ReleaseV(old(View()), ip)
      ensures served == old(served) && moved >= old(moved)
    {
      ReleaseSpec(View(), ip);
      QueueFits(ReleaseV(View(), ip));
      CompactFreed();
      assert (freed + [ip])[head..] == freed[head..] + [ip];
      freed := freed + [ip];
    }

    /** Moves the unread elements to the front once they are no more than the read ones. */
    method CompactFreed()
      requires Valid()
      modifies this`freed, this`head, this`moved
      ensures Valid() && View() == old(View()) && |freed| <= |old(freed)|
      ensures head == 0 || head < |freed| - head
      ensures moved == old(moved) + if head == old(head) then 0 else |freed|
    {
      if head > 0 && head >= |freed| - head {
        var n := |freed| - head;
        freed := freed[head..];
        head := 0;
        moved := moved + n;
      }
      assert View().queue == old(View()).queue;
    }
  }

  lemma {:induction false} AlignedBlock(addr: u32, size: nat, blocks: nat)
    requires size > 0 && size * blocks == 0x1_0000_0000
    ensures 0 <= Masked(addr, size) <= addr <= Masked(addr, size) + (size - 1) <= MAX_U32
    ensures Masked(addr, size) % size == 0
  {
    var q := addr / size;
    MultipleLeavesNothing(q, size);
    assert q * size <= addr < q * size + size;
    if blocks <= q {
      MulMono(size, blocks, q);
    } else {
      MulMono(size, q + 1, blocks);
    }
  }

  lemma {:induction false} MultipleLeavesNothing(q: nat, size: nat)
    requires size > 0
    ensures q * size % size == 0
  {
    var d, r := q * size / size, q * size % size;
    assert size * q == size * d + r;
    if d < q {
      MulMono(size, d + 1, q);
    } else if q < d {
      MulMono(size, q + 1, d);
    }
  }

  lemma {:induction false} MulMono(a: nat, b: nat, c: nat)
    requires b <= c
    ensures a * b <= a * c
  {
  }

  lemma {:induction false} Pow2Splits(a: nat, b: nat)
    ensures Pow2(a + b) == Pow2(a) * Pow2(b)
    decreases b
  {
    if b > 0 {
      Pow2Splits(a, b - 1);
      assert Pow2(a + b) == 2 * Pow2(a + (b - 1));
    }
  }
}
