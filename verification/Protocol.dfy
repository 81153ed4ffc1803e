// The mapping protocol of ipmap.go as a state machine. Every step is what one goroutine does
// between two points where another may run: one critical section, one clock reading, or one
// call of the firewall.
module Protocol {
  import opened Bytes
  import opened Pool

  datatype Lease = Lease(fake: u32, lastSeen: int)
  datatype Pair = Pair(dest: u32, fake: u32)

  /** How far the flight of one real address has come. */
  datatype Flight =
    | Entered                       // before the second table lookup
    | Missed                        // the address is not in the table
    | Allocated(fake: u32)          // before fw.Add
    | AddFailed(fake: u32)          // fw.Add failed, the address is to be released
    | Added(fake: u32)              // the kernel has the mapping
    | Stamped(fake: u32, at: int)   // set has read the clock, before taking the lock

  /** A table lookup that holds the read lock: it has read the clock and will store it. */
  datatype Touch = Touch(dest: u32, at: int)

  datatype Clean =
    | Idle
    | Cutting(cutoff: int)          // the cutoff is computed, before taking the lock
    | Deleting(items: seq<Pair>)    // before fw.Delete
    | Releasing(rest: seq<Pair>)    // deleted from the kernel, being released one by one

  datatype State = State(
    pool: PoolView,
    table: map<u32, Lease>,
    kernel: map<u32, u32>,          // fake to real
    pending: seq<Pair>,
    flights: map<u32, Flight>,      // at most one per real address
    touches: map<nat, Touch>,
    clean: Clean,
    now: int)

  // ---------------------------------------------------------------- steps

  ghost predicate Tick(s: State, s': State) {
    s.now <= s'.now && s' == s.(now := s'.now)
  }

  /** get, first half: the entry is found under the read lock and the clock is read. */
  ghost predicate TouchStart(s: State, s': State, id: nat, dest: u32) {
    && dest in s.table && id !in s.touches
    && s' == s.(touches := s.touches[id := Touch(dest, s.now)])
  }

  /** get, second half: lastSeen is stored and the read lock given back. */
  ghost predicate TouchStore(s: State, s': State, id: nat) {
    && id in s.touches && s.touches[id].dest in s.table
    && var t := s.touches[id];
       s' == s.(table := s.table[t.dest := Lease(s.table[t.dest].fake, t.at)], touches := s.touches - {id})
  }

  ghost predicate FlightEnter(s: State, s': State, dest: u32) {
    dest !in s.flights && s' == s.(flights := s.flights[dest := Entered])
  }

  ghost predicate FlightHit(s: State, s': State, id: nat, dest: u32) {
    && dest in s.flights && s.flights[dest] == Entered && dest in s.table && id !in s.touches
    && s' == s.(flights := s.flights - {dest}, touches := s.touches[id := Touch(dest, s.now)])
  }

  ghost predicate FlightMiss(s: State, s': State, dest: u32) {
    && dest in s.flights && s.flights[dest] == Entered && dest !in s.table
    && s' == s.(flights := s.flights[dest := Missed])
  }

  ghost predicate FlightAllocate(s: State, s': State, dest: u32) {
    && dest in s.flights && s.flights[dest] == Missed
    && var (pool', r) := AllocateV(s.pool);
       s' == s.(pool := pool', flights := if r.Some? then s.flights[dest := Allocated(r.value)] else s.flights - {dest})
  }

  ghost predicate FlightAdd(s: State, s': State, dest: u32) {
    && dest in s.flights && s.flights[dest].Allocated?
    && var f := s.flights[dest].fake;
       || s' == s.(kernel := s.kernel[f := dest], flights := s.flights[dest := Added(f)])
       || s' == s.(flights := s.flights[dest := AddFailed(f)])
  }

  ghost predicate FlightRelease(s: State, s': State, dest: u32) {
    && dest in s.flights && s.flights[dest].AddFailed?
    && s' == s.(pool := ReleaseV(s.pool, s.flights[dest].fake), flights := s.flights - {dest})
  }

  ghost predicate FlightStamp(s: State, s': State, dest: u32) {
    && dest in s.flights && s.flights[dest].Added?
    && s' == s.(flights := s.flights[dest := Stamped(s.flights[dest].fake, s.now)])
  }

  /** set under the write lock: no lookup is under way. */
  ghost predicate FlightSet(s: State, s': State, dest: u32) {
    && dest in s.flights && s.flights[dest].Stamped? && s.touches == map[]
    && var fl := s.flights[dest];
       s' == s.(table := s.table[dest := Lease(fl.fake, fl.at)], flights := s.flights - {dest})
  }

  ghost predicate CleanStart(s: State, s': State, ttl: nat) {
    s.clean == Idle && s' == s.(clean := Cutting(s.now - ttl))
  }

  /** out lists every entry last seen at or before the cutoff, once. */
  ghost predicate ListsExpired(table: map<u32, Lease>, cutoff: int, out: seq<Pair>) {
    && (forall i :: 0 <= i < |out| ==>
          out[i].dest in table && table[out[i].dest].fake == out[i].fake && table[out[i].dest].lastSeen <= cutoff)
    && (forall i, j :: 0 <= i < j < |out| ==> out[i].dest != out[j].dest)
    && (forall r :: r in table && table[r].lastSeen <= cutoff ==> Pair(r, table[r].fake) in out)
  }

  ghost function Unexpired(table: map<u32, Lease>, cutoff: int): map<u32, Lease> {
    map r | r in table && table[r].lastSeen > cutoff :: table[r]
  }

  /** expired under the write lock, then the start of teardown. */
  ghost predicate CleanExpire(s: State, s': State, out: seq<Pair>) {
    && s.clean.Cutting? && s.touches == map[]
    && ListsExpired(s.table, s.clean.cutoff, out)
    && var items := s.pending + out;
       s' == s.(table := Unexpired(s.table, s.clean.cutoff),
                pending := if items == [] then [] else s.pending,
                clean := if items == [] then Idle else Deleting(items))
  }

  ghost function Fakes(items: seq<Pair>): set<u32> {
    set i | 0 <= i < |items| :: items[i].fake
  }

  ghost predicate CleanDelete(s: State, s': State) {
    && s.clean.Deleting?
    && s' == s.(kernel := s.kernel - Fakes(s.clean.items), clean := Releasing(s.clean.items))
  }

  /** A failed Delete may have removed any part of the batch, which stays pending. */
  ghost predicate CleanDeleteFails(s: State, s': State, removed: set<u32>) {
    && s.clean.Deleting? && removed <= Fakes(s.clean.items)
    && s' == s.(kernel := s.kernel - removed, pending := s.clean.items, clean := Idle)
  }

  ghost predicate CleanRelease(s: State, s': State) {
    && s.clean.Releasing? && s.clean.rest != []
    && s' == s.(pool := ReleaseV(s.pool, s.clean.rest[0].fake), clean := Releasing(s.clean.rest[1..]))
  }

  ghost predicate CleanEnd(s: State, s': State) {
    s.clean == Releasing([]) && s' == s.(pending := [], clean := Idle)
  }

  datatype Step =
    | Ticks
    | StartsTouch(id: nat, dest: u32)
    | StoresTouch(id: nat)
    | Enters(dest: u32)
    | Hits(id: nat, dest: u32)
    | Misses(dest: u32)
    | Allocates(dest: u32)
    | Adds(dest: u32)
    | Releases(dest: u32)
    | Stamps(dest: u32)
    | Sets(dest: u32)
    | CleanStarts
    | CleanExpires(out: seq<Pair>)
    | CleanDeletes
    | CleanFails(removed: set<u32>)
    | CleanReleases
    | CleanEnds

  ghost predicate NextBy(s: State, s': State, ttl: nat, step: Step) {
    match step
    case Ticks => Tick(s, s')
    case StartsTouch(id, dest) => TouchStart(s, s', id, dest)
    case StoresTouch(id) => TouchStore(s, s', id)
    case Enters(dest) => FlightEnter(s, s', dest)
    case Hits(id, dest) => FlightHit(s, s', id, dest)
    case Misses(dest) => FlightMiss(s, s', dest)
    case Allocates(dest) => FlightAllocate(s, s', dest)
    case Adds(dest) => FlightAdd(s, s', dest)
    case Releases(dest) => FlightRelease(s, s', dest)
    case Stamps(dest) => FlightStamp(s, s', dest)
    case Sets(dest) => FlightSet(s, s', dest)
    case CleanStarts => CleanStart(s, s', ttl)
    case CleanExpires(out) => CleanExpire(s, s', out)
    case CleanDeletes => CleanDelete(s, s')
    case CleanFails(removed) => CleanDeleteFails(s, s', removed)
    case CleanReleases => CleanRelease(s, s')
    case CleanEnds => CleanEnd(s, s')
  }

  ghost predicate Next(s: State, s': State, ttl: nat) {
    exists step :: NextBy(s, s', ttl, step)
  }

  // ---------------------------------------------------------------- the invariant

  /** Who is responsible for an address that is out of the pool. */
  datatype Owner = ByTable(dest: u32) | ByFlight(dest: u32) | ByClean(i: nat)

  /** The pairs taken off the table and not yet released. */
  ghost function Parked(s: State): seq<Pair> {
    match s.clean
    case Deleting(items) => items
    case Releasing(rest) => rest
    case _ => s.pending
  }

  ghost function FakeOf(fl: Flight): Option<u32> {
    match fl
    case Entered => None
    case Missed => None
    case Allocated(f) => Some(f)
    case AddFailed(f) => Some(f)
    case Added(f) => Some(f)
    case Stamped(f, _) => Some(f)
  }

  ghost predicate Owns(s: State, o: Owner, f: u32) {
    match o
    case ByTable(r) => r in s.table && s.table[r].fake == f
    case ByFlight(r) => r in s.flights && FakeOf(s.flights[r]) == Some(f)
    case ByClean(i) => i < |Parked(s)| && Parked(s)[i].fake == f
  }

  /** The addresses out of the pool are exactly the owned ones, and each has one owner. */
  ghost predicate Partition(s: State) {
    && (forall o, o', f :: Owns(s, o, f) && Owns(s, o', f) ==> o == o')
    && (forall o, f :: Owns(s, o, f) ==> f in Outstanding(s.pool))
    && (forall f :: f in Outstanding(s.pool) ==> exists o :: Owns(s, o, f))
  }

  /** What the kernel must say about an address, by its owner. */
  ghost predicate KernelAgrees(s: State, o: Owner, f: u32) {
    match o
    case ByTable(r) => f in s.kernel && s.kernel[f] == r
    case ByFlight(r) =>
      r in s.flights && (if s.flights[r].Added? || s.flights[r].Stamped? then f in s.kernel && s.kernel[f] == r
                         else f !in s.kernel)
    case ByClean(i) =>
      i < |Parked(s)| && (f in s.kernel ==> !s.clean.Releasing? && s.kernel[f] == Parked(s)[i].dest)
  }

  ghost predicate KernelInv(s: State) {
    && (forall o, f :: Owns(s, o, f) ==> KernelAgrees(s, o, f))
    && (forall f :: f in s.kernel ==> f in Outstanding(s.pool))
  }

  /** A flight past its lookup is for an address the table does not have; lookups under way
      are for entries the table has; no clock reading is from the future. */
  ghost predicate LocalInv(s: State) {
    && (forall r :: r in s.flights && s.flights[r] != Entered ==> r !in s.table)
    && (forall r :: r in s.flights && s.flights[r].Stamped? ==> s.flights[r].at <= s.now)
    && (forall id :: id in s.touches ==> s.touches[id].dest in s.table && s.touches[id].at <= s.now)
    && (forall r :: r in s.table ==> s.table[r].lastSeen <= s.now)
  }

  ghost predicate Inv(s: State) {
    PoolInv(s.pool) && Partition(s) && KernelInv(s) && LocalInv(s)
  }
}
