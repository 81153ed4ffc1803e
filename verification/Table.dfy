// The table of leases (table.go) and the two things around it that the program does not
// control: the clock and the firewall.
module Table {
  import opened Bytes
  import opened Pool
  import opened Protocol

  /** A clock that never runs backwards. */
  class Clock {
    var now: int

    constructor (start: int)
      ensures now == start
    {
      now := start;
    }

    method Read() returns (t: int)
      modifies this
      ensures old(now) <= now == t
    {
      var elapsed: int := *;
      if elapsed > 0 {
        now := now + elapsed;
      }
      t := now;
    }
  }

  class MappingTable {
    var m: map<u32, Lease>

    constructor ()
      ensures m == map[]
    {
      m := map[];
    }

    method Get(dest: u32, clock: Clock) returns (fake: u32, ok: bool)
      modifies this, clock
      ensures ok <==> dest in old(m)
      ensures old(clock.now) <= clock.now && (!ok ==> clock.now == old(clock.now) && m == old(m))
      ensures ok ==> fake == old(m)[dest].fake && m == old(m)[dest := Lease(fake, clock.now)]
    {
      ok := dest in m;
      fake := 0;
      if ok {
        fake := m[dest].fake;
        var t := clock.Read();
        m := m[dest := Lease(fake, t)];
      }
    }

    method Set(dest: u32, fake: u32, clock: Clock)
      modifies this, clock
      ensures old(clock.now) <= clock.now
      ensures m == old(m)[dest := Lease(fake, clock.now)]
    {
      var t := clock.Read();
      m := m[dest := Lease(fake, t)];
    }

    predicate Has(dest: u32)
      reads this
    {
      dest in m
    }

    /** Takes every entry last seen at or before the cutoff out of the table, in whatever
        order the map is walked. */
    method Expired(cutoff: int) returns (out: seq<Pair>)
      modifies this
      ensures ListsExpired(old(m), cutoff, out)
      ensures m == Unexpired(old(m), cutoff)
    {
      out := [];
      var todo := m.Keys;
      while todo != {}
        invariant todo <= m.Keys <= old(m).Keys
        invariant forall r :: r in m ==> m[r] == old(m)[r]
        invariant forall r :: r in old(m) && (r in todo || old(m)[r].lastSeen > cutoff) ==> r in m
        invariant forall r :: r in old(m) && r !in todo && old(m)[r].lastSeen <= cutoff ==>
                    r !in m && Pair(r, old(m)[r].fake) in out
        invariant forall i :: 0 <= i < |out| ==>
                    out[i].dest in old(m) && out[i].dest !in todo && out[i].dest !in m
                    && old(m)[out[i].dest].fake == out[i].fake && old(m)[out[i].dest].lastSeen <= cutoff
        invariant forall i, j :: 0 <= i < j < |out| ==> out[i].dest != out[j].dest
        decreases todo
      {
        var r :| r in todo;
        todo := todo - {r};
        if m[r].lastSeen <= cutoff {
          ghost var before := out;
          out := out + [Pair(r, m[r].fake)];
          assert forall p :: p in before ==> p in out;
          assert out[|before|] == Pair(r, m[r].fake);
          m := m - {r};
        }
      }
    }
  }

  /** What the kernel holds, changed only through calls that may fail: each is told whether it
      is going to work. */
  class Firewall {
    var m: map<u32, u32>

    constructor (m: map<u32, u32>)
      ensures this.m == m
    {
      this.m := m;
    }

    /** A failed Add changes nothing. */
    method Add(fake: u32, dest: u32, works: bool) returns (ok: bool)
      modifies this
      ensures ok == works
      ensures m == if ok then old(m)[fake := dest] else old(m)
    {
      ok := works;
      if ok {
        m := m[fake := dest];
      }
    }

    /** A successful Delete removes the batch, whatever of it is there; a failed one may have
        removed any part. */
    method Delete(items: seq<Pair>, works: bool) returns (ok: bool)
      modifies this
      ensures ok == works
      ensures ok ==> m == old(m) - Fakes(items)
      ensures !ok ==> exists removed :: removed <= Fakes(items) && m == old(m) - removed
    {
      ok := works;
      var i := 0;
      ghost var removed: set<u32> := {};
      while i < |items|
        invariant i <= |items|
        invariant removed <= Fakes(items) && m == old(m) - removed
        invariant ok ==> forall j :: 0 <= j < i ==> items[j].fake in removed
      {
        var take: bool := *;
        if ok || take {
          m := m - {items[i].fake};
          removed := removed + {items[i].fake};
        }
        i := i + 1;
      }
      if ok {
        assert removed == Fakes(items);
      }
    }
  }
}
