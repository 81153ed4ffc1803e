# A Dafny model of a split-DNS router

The program answers DNS queries by policy. Lists of domains from several sources are compiled
into one matcher; a domain whose action is *remap* is answered with a fake address that the
kernel translates to the real one. The model covers the parts that carry state and algorithms:

- **Matching** (`Bytes`, `Labels`, `Merge`, `MergeFold`, `Lookup`, `DomainLookup`, `RadixTree`,
  `Radix`, `RadixCanonical`, `Matcher`). The k-way merge of sorted runs with its prune stack, the
  path-compressed radix tree as heap nodes mutated in place, and the FST backend. `Lookup.Answer`
  is the one definition of "most specific entry at a label boundary"; the merge, the two indexes
  and both lookups are proved against it, for every query string.
- **Fake addresses** (`Pool`, `Protocol`, `ProtocolSafety`, `ProtocolRuns`, `Table`, `IpMapper`).
  The allocator, and the mapping protocol as a state machine whose steps are single critical
  sections, clock readings and firewall calls. One partition of the addresses out of the pool
  among table, flights and cleaning is kept by every step, and everything else follows from it.
  The class `IpMapper` is proved to take only such steps, and adoption after a restart is proved
  to re-establish the invariant.
- **Runs on disk** (`Format`, `Store`, `Reader`). Writers, the streaming reader and the second
  section walker, over bytes, with the widths of all length fields written out.
- **Rebuilding** (`Router`, `Serving`). Which refreshes change a run, when compiling may be
  skipped, and what becomes of a downloaded list's entries in the answers. How fetches, writes,
  removals and kernel calls turn out is an input, so that each outcome is determined.

`Actions` holds the shared enumerations. There is one module per file. Methods follow the
program's own loops and branches and are proved against functions; what those functions mean is
stated by lemmas. Automatic induction is switched off on every lemma: each induction is written
out.

Reading the table: a *key* is a domain with its labels reversed; the *winner* of a key is the
largest index of a source that holds it; a key *covers* another when the other continues it with
a dot.

## Where the code is not what it is said to be

- **Pruning.** README.md:160-167 describes pruning as happening at the point in time a source is
  processed. The merge prunes only by keys a pruning source finally *won*: a key taken over by a
  later source that does not prune never reaches the prune stack (matcher.go:112). `MergeFold`
  follows the code, proves that the two give the same entries exactly when no takeover hides a cut
  (`FoldIsMergeExactly`) and gives an input on which they differ (`HiddenCut`).
- **Leases.** `get` reads the clock and stores it in two steps under a read lock, so an older
  reading can be stored over a newer one. `LeaseSurvivesExactly` proves that a lookup's mapping is
  kept for a whole `ttl` exactly when no older lookup of the same entry is still under way, and
  `LeaseCanBreak` runs two lookups of any entry into the losing case. When the lease holds, an
  answer's own TTL always fits (`AnswerNeverOutlivesMapping`).
- **Field widths.** A record's key length is cut to 16 bits when written and the payload's length
  to 32. `RoundTripExactly` proves that a run file reads back exactly when every key is shorter
  than 2^16 bytes and the payload than 2^32.
- **Label reversal.** It is an involution exactly on domains without empty labels
  (`InvolutionOnlyWhenClean`); leading dots leave a trailing dot in the key.
- **Adoption.** Stale entries whose deletion fails are only logged. `Adopt` says which are left;
  the mapper is valid exactly when none is. Before adopting, it is safe whatever the deletions
  come to exactly when the kernel holds nothing stale (`RestartSafeExactly`); `FailingListing` is
  a case where it is not.
- **Warm start.** The saved index is served until something is recompiled, whatever state it was
  left in. `Restart` proves that the served matcher is then in sync exactly when the router
  compiled or the index was that of the present configuration and runs before. Two ways to fail:
  the configuration changed and the refresh of the changed source failed, so that a changed action
  is not served (`StaleActionServed`); and the last run was written without an index after it,
  because saving it failed (which is only logged), the process died in between, or it used the
  radix backend, which saves none (`IndexBehindRuns`). In the second case every source then says
  "not modified" and the old index stays served. `IndexRightExactly` is the condition behind both.

## Model

| member | source | states |
|---|---|---|
| Bytes.PrefixInterval | server/router/matcher/matcher.go:95-97 | keys that have p as a byte prefix are an interval of the byte order starting at p, which is what makes popping sound although other bytes sort around the dot |
| Bytes.LessTotal | server/router/matcher/matcher.go:76-81 | the byte order is total |
| Bytes.LessTransitive | server/router/matcher/matcher.go:76-81 | the byte order is transitive |
| Bytes.LessMeans | server/router/matcher/matcher.go:76-81 | at the first difference the smaller byte comes first, and a proper prefix before what it begins |
| Bytes.HyphenSortsBetween | server/router/matcher/matcher.go:95-104 | for any key k, k-x sorts after k and before k.y, and only the latter is below k |
| Labels.ReverseLabels | server/router/matcher/radix.go:195-217 | the index loop computes the recursive label reversal, on any string |
| Labels.ReverseInvolution | server/router/matcher/radix.go:195-217 | on domains without empty labels, reversal keeps the length and undoes itself |
| Labels.InvolutionOnlyWhenClean | server/router/matcher/radix.go:195-217 | reversing twice gives the input back if and only if it has no empty label |
| Labels.ReverseUnder | server/router/matcher/radix.go:195-217 | reversal exchanges the two sides of a dot |
| Labels.ReverseImage | server/router/matcher/radix.go:195-217 | whatever the input, a key is a clean domain with at most one trailing dot |
| Labels.LeadingDotsLeaveTrailingDot | server/router/matcher/radix.go:199-208 | two leading dots become one trailing dot |
| Labels.LeadingDotIgnored | server/router/matcher/radix.go:202-207 | a single leading dot leaves no trace in the key |
| Labels.KeyOfExample | server/router/matcher/radix.go:195-217 | the bytes of www.example.com become those of com.example.www |
| Labels.CoversIsSubdomain | server/router/matcher/matcher.go:125-127 | p's key covers d's key exactly when d is a strict subdomain of p |
| Merge.MergeResolve | server/router/matcher/matcher.go:54-123 | over sorted runs: emits exactly the surviving keys, strictly ascending, each with its winner's action and mode, and counts them; terminates |
| Merge.FindBest | server/router/matcher/matcher.go:76-84 | finds a cursor showing a least key, or that all runs are exhausted |
| Merge.FindWinner | server/router/matcher/matcher.go:87-92 | finds the last cursor showing the key |
| Merge.WinnerFound | server/router/matcher/matcher.go:46-47 | that cursor belongs to the largest source index holding the key in the whole run, and shows its record |
| Merge.NothingBetween | server/router/matcher/matcher.go:75-85 | no key of any run lies between the last key taken and the least cursor |
| Merge.PopFrames | server/router/matcher/matcher.go:95-97 | pops exactly a suffix of frames none of which is a byte prefix of the key, and leaves a prefix of it on top |
| Merge.PoppedStackHolds | server/router/matcher/matcher.go:95-97 | popping loses no frame that could still matter: every pruning key that is a byte prefix of the key is still on the stack |
| Merge.IsPruned | server/router/matcher/matcher.go:98-104 | the scan finds out whether a frame of a later source covers the key |
| Merge.PrunedIsOverridden | server/router/matcher/matcher.go:98-104 | a key is pruned by the stack exactly when some strict ancestor was won by a pruning source of larger index |
| Merge.PushedStackHolds | server/router/matcher/matcher.go:112-114 | the stack after a push (or none) again holds every pruning key that is a prefix of the last key, as a chain |
| Merge.Advance | server/router/matcher/matcher.go:60-64 | one cursor moves to its run's next record or to the end, the others stay |
| Merge.AdvanceAll | server/router/matcher/matcher.go:116-120 | afterwards every cursor shows the first record of its run past the key |
| Merge.FirstCursors | server/router/matcher/matcher.go:60-67 | every cursor starts at its run's first record, or at the end of an empty one |
| Merge.TurnHolds | server/router/matcher/matcher.go:93-114 | one turn keeps the stack and the emissions right up to the key taken, and leaves fewer keys |
| MergeFold.FoldHolds | README.md:155-167 | folding sources in order leaves a key exactly when its last writer's entry is not cut by a pruning source after it |
| MergeFold.FoldKeepsNoMore | README.md:160-164 | whatever the fold keeps, the merge keeps |
| MergeFold.FoldIsMergeExactly | server/router/matcher/matcher.go:95-114 | fold and merge give the same map, entries included, if and only if no key is hidden: won before a pruning source, below a key of it that a non-pruning source took over, and below no key still won by a later pruning source |
| MergeFold.DiffersExactly | server/router/matcher/matcher.go:112-114 | the two differ at exactly the hidden keys |
| MergeFold.MergeIsFold | server/router/matcher/matcher.go:46-47 | if no key of a pruning source is taken over, fold and merge give the same map |
| MergeFold.HiddenCut | server/router/matcher/matcher.go:112-114 | three sources on which the documented process drops a key and the merge keeps it |
| Lookup.MergedMap | server/router/matcher/matcher.go:106-111 | the emissions collected are the map of survivors to their winners' entries |
| Lookup.MergeMapHolds | server/router/matcher/matcher.go:46-52 | the map of survivors to their winners' entries exists for all sources |
| Lookup.MergeMapUnique | server/router/matcher/matcher.go:46-52 | the sources determine that map |
| Lookup.LongestCoverUnique | server/router/matcher/matcher.go:35-43 | the longest label-boundary prefix entry is unique, so scanning from the end and descending a tree agree |
| Lookup.OnlyOverriderBelow | README.md:160-164 | below a key of a pruning last source, only that source's entries survive |
| Lookup.OperatorOverride | README.md:160-164 | if the last source prunes and lists p with subdomains, p and every key it covers get that source's action, whatever the others list |
| DomainLookup.NearestAncestorDecides | README.md:155-158 | an unlisted domain gets the action of its nearest ancestor listed with subdomains |
| DomainLookup.UnlistedPasses | server/router/matcher/matcher.go:43 | a domain with no listed ancestor passes |
| DomainLookup.OverrideHoldsBelow | README.md:160-164 | the operator override, stated on domains and subdomains |
| RadixTree.InsertIsUpdate | server/router/matcher/radix.go:60-119 | insertion changes what the tree holds at its own key and at no other, through all split cases |
| RadixTree.InsertKidIsUpdate | server/router/matcher/radix.go:79-118 | the same for the switch on the child sharing the first byte |
| RadixTree.AddLeafIsUpdate | server/router/matcher/radix.go:71-78 | the same for a new leaf |
| RadixTree.CutKeepsEntries | server/router/matcher/radix.go:84-97 | splitting a node changes no entry |
| RadixTree.GetIsMostSpecific | server/router/matcher/radix.go:146-193 | descent with a best-so-far returns the entry at the key, else the longest prefix entry at a label boundary, else what it was given |
| Radix.CommonPrefixLen | server/router/matcher/radix.go:121-128 | the loop computes the longest common prefix |
| Radix.BinarySearch | server/router/matcher/radix.go:68-70 | finds the child with the byte, or the slot that keeps the children sorted |
| Radix.LinearSearch | server/router/matcher/radix.go:157-163 | the short scan has the same verdict and position |
| Radix.RadixNode.FindChild | server/router/matcher/radix.go:154-172 | whichever search the length of the list selects, it finds the child with the byte exactly when there is one |
| Radix.RadixNode.InsertChildAt | server/router/matcher/radix.go:46-50 | growing by one and shifting from the end puts the child at its index, keeps those before it and moves those after it up by one |
| Radix.RadixNode.Insert | server/router/matcher/radix.go:60-119 | in place: the heap stays a tree of distinct nodes with sorted children keyed by their first byte, and its meaning becomes that of the functional insertion; terminates |
| Radix.RadixNode.InsertKid | server/router/matcher/radix.go:79-118 | the switch, likewise |
| Radix.RadixNode.AddLeaf | server/router/matcher/radix.go:71-78 | the new-leaf case, likewise |
| Radix.RadixNode.Cut | server/router/matcher/radix.go:84-97 | splits a node in place into two that mean the same |
| Radix.RadixNode.Get | server/router/matcher/radix.go:146-193 | the search over heap nodes, whichever child search it uses, is the functional search |
| RadixCanonical.InsertStaysTidy | server/router/matcher/radix.go:60-119 | insertion keeps every node below the root an entry or a branching point |
| RadixCanonical.EntriesDetermineTree | server/router/matcher/radix.go:60-119 | two tidy trees holding the same entries are structurally equal |
| RadixCanonical.InsertionOrderIrrelevant | server/router/matcher/radix.go:60-119 | insertion sequences that leave the same entries build the same tree |
| RadixCanonical.PermutationsBuildSameTree | server/router/matcher/radix.go:60-119 | in particular any order of distinct keys |
| RadixCanonical.InsertCounts | server/router/matcher/radix.go:60-119 | insertion adds one entry unless it overwrites one |
| RadixCanonical.NodesBounded | server/router/matcher/radix.go:84-117 | a tidy tree with k entries has at most 2k-1 nodes below its root |
| RadixCanonical.NodesBoundedByKeys | server/router/matcher/radix.go:84-117 | any list of insertions with k distinct keys builds at most 2k-1 nodes |
| Matcher.FstBuilder.Insert | server/router/matcher/matcher.go:135-141 | the index builder accepts a key only if it is above the last one |
| Matcher.InsertAllFst | server/router/matcher/matcher.go:135-141 | the builder refuses none of a merge's emissions, and every number stored encodes its entry |
| Matcher.BuildFST | server/router/matcher/matcher.go:129-151 | never fails on sorted runs, and the index holds exactly the merge map |
| Matcher.Decodes | server/router/matcher/matcher.go:32-40 | shifting and masking a stored number gives back action and mode |
| Matcher.EncodesUnique | server/router/matcher/matcher.go:135-141 | an index determines the entries it was built from |
| Matcher.EncodedNumbers | server/router/matcher/matcher.go:14-17 | the eight numbers stored for the four actions in two modes |
| Matcher.FstLookup | server/router/matcher/matcher.go:30-44 | exact gets at the key and backwards at its label boundaries find the most specific entry |
| Matcher.InsertReversed | server/router/matcher/radix.go:52-58 | an empty key is not inserted |
| Matcher.InsertAllRadix | server/router/matcher/matcher.go:163-166 | the tree built is the one the emissions determine |
| Matcher.BuildRadix | server/router/matcher/matcher.go:161-172 | the tree holds exactly the merge map, is canonical and has at most 2n-1 nodes below its root |
| Matcher.SearchAnswers | server/router/matcher/radix.go:146-193 | search in a tree that represents a map gives the map's most specific answer |
| Matcher.RadixMatcher.Lookup | server/router/matcher/radix.go:130-142 | radix lookup is the specified answer, the empty query included |
| Matcher.FstMatcher.Lookup | server/router/matcher/matcher.go:30-44 | FST lookup is the specified answer |
| Matcher.BothBackends | server/router/matcher/matcher.go:129-172 | compiled from the same runs, both backends answer every query string alike, with the action of the most specific entry of the sources' merge map |
| Pool.AllocateSpec | server/mapper/pool.go:63-100 | allocation hands out an in-range address that was not outstanding and makes only it outstanding, or the whole range is outstanding |
| Pool.AllocateFailsExactly | server/mapper/pool.go:78-99 | it fails if and only if the range is exhausted |
| Pool.FirstGivenFirstReused | server/mapper/pool.go:17-19 | over any history of releases and allocations, an allocation made while released addresses wait returns the one that has waited longest |
| Pool.FreshIsLowest | server/mapper/pool.go:78-99 | with nothing waiting, allocation returns the lowest address not issued or adopted yet |
| Pool.AdoptedGoes | server/mapper/pool.go:87-90 | the adopted set is dropped once the cursor is past its largest member |
| Pool.RangeIsCapacity | server/mapper/pool.go:35-41 | the range holds exactly broadcast minus network addresses |
| Pool.CursorMoves | server/mapper/pool.go:78-93 | the cursor issues exactly what was not adopted, and dropping the adopted set once it is past its maximum loses nothing |
| Pool.ReleaseSpec | server/mapper/pool.go:102-108 | release ends exactly one address's outstanding time |
| Pool.MarkAdoptedSpec | server/mapper/pool.go:50-61 | adopting makes exactly that address outstanding |
| Pool.QueueFits | server/mapper/pool.go:17-19 | the queue never holds more than the capacity |
| Pool.AlignedBlock | server/mapper/pool.go:25-33 | the block of an address starts at a multiple of its size, holds the address and stays within 32 bits |
| Pool.IpPool.constructor | server/mapper/pool.go:25-33 | for every prefix length 0 to 32, the pool starts empty; network is a multiple of the block's size, and the block holds the address and ends at broadcast |
| Pool.IpPool.MarkAdopted | server/mapper/pool.go:50-61 | new state is the adopted view |
| Pool.IpPool.Allocate | server/mapper/pool.go:63-100 | buffer, head and cursor loop refine the FIFO allocation; nothing else moves |
| Pool.IpPool.Release | server/mapper/pool.go:102-108 | appends to the FIFO queue; the buffer stays within twice the capacity |
| Pool.IpPool.CompactFreed | server/mapper/pool.go:110-116 | compaction leaves the queue as it was, and over any run moves no more elements than allocations were served from it |
| Table.MappingTable.Get | server/mapper/table.go:25-35 | a hit stores the clock reading and changes no other entry, a miss changes nothing |
| Table.MappingTable.Set | server/mapper/table.go:37-44 | writes one entry stamped with the clock |
| Table.MappingTable.Expired | server/mapper/table.go:60-73 | removes exactly the entries not seen after the cutoff and lists each of them once, in whatever order the map is walked |
| Table.Firewall.Add | server/firewall/firewall.go:10-13 | an addition does as it is told it will: a failing one changes nothing |
| Table.Firewall.Delete | server/firewall/firewall.go:12-13 | a deletion that works removes the batch, missing ones included; one that does not may have removed any part of it |
| ProtocolSafety.GainPartition | server/mapper/ipmap.go:106-109 | an address newly handed out gets one owner |
| ProtocolSafety.LosePartition | server/mapper/ipmap.go:110-113 | an address released loses its only owner |
| ProtocolSafety.HandoverPartition | server/mapper/ipmap.go:114 | a handover from flight to table keeps one owner per address |
| ProtocolSafety.FlightAllocateKeeps | server/mapper/ipmap.go:106-109 | allocating in a flight keeps the invariant |
| ProtocolSafety.FlightAddKeeps | server/mapper/ipmap.go:110-113 | a kernel addition, failed or not, keeps it |
| ProtocolSafety.FlightReleaseKeeps | server/mapper/ipmap.go:111 | giving an address back after a failed addition keeps it |
| ProtocolSafety.FlightSetKeeps | server/mapper/ipmap.go:114 | entering the mapping in the table keeps it |
| ProtocolSafety.CleanExpireKeeps | server/mapper/table.go:60-73 | expiry turns table ownership into cleaning ownership, pair by pair |
| ProtocolSafety.CleanDeleteKeeps | server/mapper/ipmap.go:145-148 | a successful deletion keeps it |
| ProtocolSafety.CleanDeleteFailsKeeps | server/mapper/ipmap.go:145-148 | so does a failed one that removed any part of the batch |
| ProtocolSafety.CleanReleaseKeeps | server/mapper/ipmap.go:150-152 | so does each release |
| ProtocolSafety.StepKeepsInv | server/mapper/ipmap.go:89-154 | every step of every flight, lookup and cleaning keeps ownership partition, kernel agreement and local facts |
| ProtocolRuns.RunKeepsInv | server/mapper/ipmap.go:89-154 | so every state of every interleaving has them |
| ProtocolRuns.TableMatchesKernel | server/mapper/ipmap.go:106-115 | in such a state every table entry is in the kernel and no two real addresses share a fake one |
| ProtocolRuns.DeleteSparesLive | server/mapper/ipmap.go:126-148 | no deletion batch, retries included, names the fake of a live entry or of a flight |
| ProtocolRuns.SetOverwritesNothing | server/mapper/table.go:37-44 | set never meets an entry of its real address |
| ProtocolRuns.StepMovesAddress | server/mapper/pool.go:63-108 | in the protocol, a step makes an address outstanding exactly when it allocates it, and ends that exactly when it releases it |
| ProtocolRuns.ReleaseIsSafe | server/mapper/ipmap.go:110-154 | every release, by a flight or by a cleaning, is of an outstanding address without a kernel entry |
| ProtocolRuns.ReleasedOncePerAllocation | server/mapper/ipmap.go:106-154 | in any run, between two releases of an address there is an allocation of it |
| ProtocolRuns.AllocatedOncePerRelease | server/mapper/ipmap.go:106-154 | in any run, between two allocations of an address there is a release of it |
| ProtocolRuns.AddIsFresh | server/mapper/ipmap.go:106-113 | an address about to be added is neither in the kernel nor in the table |
| ProtocolRuns.StepKeepsLease | server/mapper/table.go:60-73 | no step ends a lease before its ttl is over |
| ProtocolRuns.LeaseHolds | server/mapper/table.go:25-35 | over any run, a lease from t is in table and kernel until t + ttl |
| ProtocolRuns.NewMappingLeased | server/mapper/table.go:37-44 | a new mapping is leased from its flight's clock reading |
| ProtocolRuns.TouchedMappingLeased | server/mapper/table.go:25-35 | a looked-up mapping is leased from its clock reading if no older lookup of it is under way |
| ProtocolRuns.OlderLookupBreaksLease | server/mapper/table.go:25-35 | from any state with an older lookup under way, whatever flights and cleaning are at, a run exists that removes the kernel entry early |
| ProtocolRuns.FinishClean | server/mapper/ipmap.go:126-154 | a cleaning at any point can end at once with the entry as it is, or else takes its mapping out of the kernel |
| ProtocolRuns.LeaseCanBreak | server/mapper/table.go:25-35 | from any state without lookups under way and for any entry, two lookups can reach the losing case: the younger has stored its reading, and the mapping goes before its ttl is over |
| ProtocolRuns.LeaseSurvivesExactly | server/mapper/table.go:25-35 | every continuation keeps the mapping until t + ttl if and only if no older lookup of it is under way, whatever else is |
| ProtocolRuns.AnswerTtlIsFourFifths | server/dns_handler.go:103-111 | every operation rounded to 53 bits: the answer's TTL is four fifths of the lease in whole seconds, from below and above, but for one part in 2^50 |
| ProtocolRuns.WholeLease | server/dns_handler.go:103-111 | a lease of five n seconds gives exactly four n, as 240 for five minutes |
| ProtocolRuns.AnswerTtlFits | server/dns_handler.go:103-111 | rounding and the 32-bit field included, the TTL ends before the lease; for a product too large for the field, whatever is put there |
| ProtocolRuns.AnswerNeverOutlivesMapping | server/dns_handler.go:103-111 | an answer's TTL, counted from the lease's reading, never outlives the kernel's mapping, in any run |
| IpMapper.IpMapper.Map | server/mapper/ipmap.go:89-124 | takes only protocol steps and keeps the invariant; ends with the address mapped in table and kernel and freshly seen, the fake being what the pool hands out next if it is new, or, on each error, with table, kernel and outstanding addresses as before; says exactly when each error occurs, given whether the kernel call works |
| IpMapper.IpMapper.RunFlight | server/mapper/ipmap.go:100-116 | the coalesced function with its second lookup, likewise |
| IpMapper.IpMapper.MapNew | server/mapper/ipmap.go:106-115 | allocate, add, set, likewise |
| IpMapper.IpMapper.CleanUp | server/mapper/ipmap.go:126-133 | exactly the entries not seen for a ttl leave the table; the batch is what was pending and then these; if the deletion works, or there is nothing to delete, nothing is pending, the batch is queued in order and pool, kernel and table hold the same fakes; otherwise the pool is as before and the whole batch stays pending |
| IpMapper.IpMapper.Teardown | server/mapper/ipmap.go:135-154 | deletes and releases by protocol steps, or returns the whole batch as failed |
| IpMapper.IpMapper.ReleaseAll | server/mapper/ipmap.go:150-152 | releases the batch one address at a time and in order, each outstanding when released |
| IpMapper.IpMapper.Adopt | server/mapper/ipmap.go:60-87 | from any kernel map listed in any order: table and pool take over exactly the first usable entry of each real address; exactly the stale entries are deleted, and of them only such whose deletion does not work can be left; the mapper is valid if and only if none was left |
| IpMapper.IpMapper.AdoptEntry | server/mapper/ipmap.go:66-85 | one entry further; a stale entry leaves the kernel unless its deletion does not work, and then it may; nothing else leaves |
| IpMapper.FirstUsable | server/mapper/ipmap.go:75-84 | every usable entry has a kept one for its real address at or before it |
| IpMapper.AdoptionRestores | server/mapper/ipmap.go:60-87 | after adoption the mapper's invariant holds if and only if no stale entry survived its deletion, and then the kernel is the inverse of the table |
| IpMapper.NothingStaleExactly | server/mapper/ipmap.go:75 | no listed entry is stale if and only if every fake in the kernel is in range and no real address has two |
| IpMapper.AdoptionRun | server/mapper/ipmap.go:66-85 | for every listing and every choice of stale entries, there is an adoption whose deletions leave just those |
| IpMapper.RestartSafeExactly | server/mapper/ipmap.go:75-81 | the mapper is valid after adoption whatever the deletions come to if and only if the kernel held nothing stale |
| IpMapper.FailingListing | server/mapper/ipmap.go:75-81 | two fakes of one real address, the second not deleted: the invariant fails |
| IpMapper.EveryMappingRecovered | README.md:54-58 | if in-range entries have pairwise different real addresses, every one is recovered unchanged |
| IpMapper.QuietOwnership | server/mapper/ipmap.go:89-154 | with no call under way and nothing pending, pool, table and kernel agree on the fakes in use |
| Format.BigEndianRoundTrip | server/router/store/format.go:45-54 | a length that fits its field reads back |
| Format.Int64RoundTrip | server/router/store/format.go:63-70 | any 64-bit number, negative ones included, reads back |
| Format.MostSignificantFirst | server/router/store/format.go:45-54 | lengths of two and four bytes are written and read most significant byte first |
| Format.FileOfExample | server/router/store/format.go:13-33 | a whole file byte by byte: magic, version, the five fields by number, the data section and a record |
| Format.EmptyFile | server/router/store/format.go:56-84 | empty fields are not written at all |
| Format.PreambleDecides | server/router/store/format.go:119-131 | for any bytes, both readers refuse exactly the files not beginning with AZRS and a fifth byte, and name any version other than 1 |
| Format.SectionsInReading | server/router/store/format.go:159-175 | sections of other types, and numbers not eight bytes long, are passed over; of two sections for one text field the later stands |
| Format.DecodersAgree | server/router/store/format.go:141-199 | on arbitrary bytes, the section walker finds a data section d exactly when the header reader announces that many bytes and d follows |
| Format.WalkersAgree | server/router/store/format.go:141-199 | the same from any section on |
| Format.ParseValidator | server/router/store/format.go:56-84 | written validator fields read back, omitted zero and empty ones included |
| Format.HeaderRoundTrip | server/router/store/format.go:141-177 | a written run's header reads back as the same validator and leaves exactly the payload |
| Format.IndexRoundTrip | server/router/store/store.go:191-206 | a saved index below 2^32 bytes is found unchanged |
| Store.WriteSection | server/router/store/format.go:45-54 | appends type, length and value |
| Store.WriteValidator | server/router/store/format.go:56-84 | appends the non-empty fields in order |
| Store.SortFunc | server/router/store/format.go:87-92 | a permutation sorted by key and, within a key, by falling mode |
| Store.Compact | server/router/store/format.go:93 | keeps, of a sorted list, every key once with its largest mode, strictly ascending |
| Store.CompactionUnique | server/router/store/store.go:30-33 | which determines the result |
| Store.WriteData | server/router/store/format.go:86-117 | appends the data section of that compaction of the input records |
| Reader.ReadHeader | server/router/store/format.go:141-177 | the stream loop parses any bytes as specified, with each error, and stops at the payload |
| Reader.SectionValue | server/router/store/format.go:179-199 | the index loop stays in bounds, terminates, and finds the first section of the type or says why not |
| Reader.RunReader.Next | server/router/store/store.go:155-177 | on any bytes: the next record, the end or the error, and the remaining length never underflows |
| Reader.NextOnBytes | server/router/store/store.go:155-177 | on any bytes: mode, two length bytes, key; when the data section or the file ends before the key does, it is the one error or the other |
| Reader.PayloadRoundTrip | server/router/store/store.go:155-177 | with short keys, repeated reading yields exactly the written records and ends with nothing remaining |
| Reader.RoundTripExactly | server/router/store/format.go:95-115 | a whole run file reads back, validator and records, if and only if every key is shorter than 2^16 bytes and the payload than 2^32 |
| Reader.PayloadReadsExactly | server/router/store/format.go:105-115 | a payload read to its end gives its records back if and only if every key is shorter than 2^16 bytes |
| Reader.LongPayloadReadShort | server/router/store/format.go:99-101 | a payload of 2^32 bytes or more never reads back from its file, although the header does |
| Reader.ReadWithinBudget | server/router/store/store.go:155-177 | on any bytes, the records read encode to no more than the announced length |
| Reader.LongKeyReadShort | server/router/store/format.go:108 | a longer key never reads back |
| Reader.RunRoundTrip | server/router/store/store.go:138-177 | opening and reading a written run gives its validator and its records and ends cleanly |
| Reader.EncodeRun | server/router/store/store.go:119-130 | a run file is preamble, validator and the compaction of the records |
| Reader.DecodeRun | server/router/router.go:125-145 | reading through the cursor yields the records before the first end or error |
| Reader.SaveFst | server/router/store/store.go:199-206 | what is saved is what the section walker finds |
| Router.ToRecords | server/router/source.go:147-157 | one record per entry, with reversed key and the entry's mode |
| Router.Refresh | server/router/source.go:91-127 | unchanged exactly when the stored run carries the source's fingerprint and the source calls its validator current; else a non-empty download is stored as the compaction of its entries if it can be written, and anything else is stale exactly when there is a readable run; afterwards only a stale source can have a run of another fingerprint |
| Router.StoredHeader | server/router/source.go:110-114 | a downloaded run shows the download's validator under the source's fingerprint |
| Router.SettledIsWritten | server/router/source.go:91-127 | if no source is stale and no orphan is left, every stored run carries its present source's fingerprint |
| Router.WrittenIsStorable | server/router/source.go:129-157 | normalised entries are stored as non-empty keys of mode 1 or 2, strictly ascending |
| Router.OpenedIsSorted | server/router/router.go:125-145 | runs as stored meet everything the merge and the indexes demand |
| Router.RunStore.WriteRun | server/router/store/store.go:119-130 | replaces one whole run, or changes nothing if it cannot be written |
| Router.RunStore.Retain | server/router/store/store.go:208-230 | removes exactly the runs of names not listed that can be removed, counts them, and says whether any such run is left |
| Router.Router.OpenRuns | server/router/router.go:125-145 | sources in order, those whose run does not open left out |
| Router.Router.Compile | server/router/router.go:102-123 | whichever backend: a matcher of the merge map of the current runs; it does not fail |
| Router.Router.RefreshAll | server/router/router.go:42-59 | the runs change only if some source was updated; each result is the source's answer to the validator it had at the start, and still holds at the end |
| Router.Router.UpdateRuns | server/router/router.go:42-64 | refresh and removal of orphans together change the runs only if a source was updated or a run removed, and neither happens when every source says its run is current and no run is an orphan; says when every run left is of the present configuration |
| Router.Router.Install | server/router/router.go:71-72 | serves the matcher; the saved index becomes the matcher's if saving is reported, and stays as it was otherwise |
| Router.Router.Rebuild | server/router/router.go:41-81 | compiles exactly when a source was updated, a run removed or nothing is served, and not when every source calls its run current and no run is an orphan; afterwards the served matcher is that of the current runs if and only if it compiled or already was; an FST just compiled is saved if the disk allows, and the saved index is otherwise unchanged; no orphan is left that can be removed |
| Router.Router.RebuildTwice | server/router/source.go:91-100 | a rebuild after one that updated every source skips compiling when each source calls what was just downloaded current |
| Router.Router.RebuildAll | server/server.go:72-90 | after any sequence of rebuilds the served matcher equals a fresh compilation if and only if some round compiled or it did before; a cold start compiles; if the last compiling round saved its index, that is the index of the runs |
| Router.Router.InstallCompiled | server/router/router.go:71-72 | for a matcher of the current runs, the saved index is then that of the runs if saving is reported and unchanged otherwise |
| Router.Router.Serve | server/router/router.go:67-73 | a compiled matcher of the current runs is served; the saved index is that of the runs if saving is reported and unchanged otherwise |
| Router.Router.ServeCompiled | server/router/router.go:93-99 | the same, unless the compilation is empty: then what is served stays |
| Router.Router.LoadCached | server/router/router.go:83-100 | serves the saved index, else a compilation if it has any entry, else nothing new; the result says which; the saved index changes only to that of the runs |
| Router.Router.Restart | server/router/router.go:64-100 | from any saved index: after a warm start and one rebuild the served matcher is that of the current runs if and only if it compiled or the index was that of the present configuration and runs; an index that was behind stays served when every source says its run is current; an index right under an earlier configuration is right again when no source was stale and no orphan was left |
| Router.SameFingerprintsSameRuns | server/router/source.go:64-80 | two configurations whose fingerprints account for every stored run compile to the same thing |
| Router.ServedIsIndex | server/router/router.go:83-90 | a loaded index answers from the merge map of the runs if and only if it is that map's index |
| Router.IndexRightExactly | server/router/router.go:83-90 | an index made from one configuration and its runs is right for another, or for later runs, if and only if both merge to the same map |
| Router.StaleActionServed | server/router/source.go:91-127 | a source whose action was changed and whose fetch failed: for any non-empty run the two maps differ, so the old action is still served |
| Router.IndexBehindRuns | server/router/router.go:70-73 | same configuration, nothing stale: an index made before the last run was written is not the index of the runs whenever the later run has a new key, although the runs carry the same fingerprint |
| Router.Router.LookupAction | server/router/router.go:164-170 | a served lookup is the specified answer over the current runs when in sync, and passes when nothing is served |
| Router.StoredOverrideServed | README.md:160-164 | from the stored run to the answer: p listed with subdomains in a pruning last source decides for p and every domain below it |
| Serving.OpenedInOrder | server/router/router.go:125-145 | exactly the sources with a readable run are opened, once each and in configuration order, with their own records, action and prune flag |
| Serving.OpenedConcat | server/router/router.go:125-145 | opening two configurations' sources one after the other is opening both |
| Serving.LastListerDecides | server/router/matcher/matcher.go:46-52 | for any number of sources: a key is served with the action and mode of the last source whose stored run lists it, exactly when no pruning source after it was the last to list an ancestor |
| Serving.KeptFromEntries | server/router/source.go:147-157 | after compaction a key has a record exactly when an entry has it, of mode 2 exactly when one such entry has subdomains |
| Serving.EntryServed | server/router/source.go:147-157 | an entry of the last source gives its own domain that source's action |
| Serving.EntryOverrides | README.md:160-164 | an entry with subdomains in a pruning last source decides for its domain and every subdomain |
| Serving.UncoveredPasses | README.md:150-158 | with any number of lists, a domain that none of them names, itself or by an ancestor with subdomains, passes |
| Serving.ListServes | README.md:150-158 | one list alone gives its action to exactly the domains it names, itself or by an ancestor with subdomains; all others pass |
| Serving.RebuildAndLookup | server/router/router.go:41-81 | the same from the fetches through a rebuild to the served answer |

## Left out

- The DNS handler, upstreams, resolver, response cache, metrics, logging, configuration, and the nft and iptables backends: network and library plumbing. The firewall is its interface's contract.
- vellum: a finite map built by strictly ascending insertions. Its byte encoding is not modelled, so the saved index is a map in `RunStore` and a byte string in `SaveFst`; a corrupt saved index counts as none.
- Merge.MergeResolve: returns what the program passes to its callback, and the builders consume that afterwards; an error of the callback, which would end the merge early, cannot occur on sorted runs.
- Radix.RadixNode.InsertChildAt: children, the `freed` buffer and records are sequence fields; slices that share a backing array are not captured. Nodes are heap objects, with aliasing ruled out by proof. `sync.Pool` buffers are left out.
- Radix.RadixNode.InsertKid: the branch for an empty rest cannot be reached and is left out; the type parameter is fixed to actions.
- Matcher.BothBackends: modes other than Exact and Prefix are a premise away. A mode byte above 2 in a corrupt run would be an exact entry for the FST and none for the radix tree; runs written by the program hold only 1 and 2 (`Router.OpenedIsSorted`).
- Store.SortFunc: an insertion sort with the contract of the library's sort.
- Table.MappingTable.Get: entries are values in a map, not shared objects; the two halves of a lookup are separate steps in `Protocol`.
- ProtocolSafety.StepKeepsInv: the clock never runs backwards; a lookup that misses and a caller that joins another's flight change nothing and are no steps; a flight that hits gives its key back when its lookup begins, which only adds interleavings.
- IpMapper.IpMapper.Adopt: a failing listing and the parsing of the address range are left out. The listing has distinct fake addresses, as the kernel holds a map. `Stats` and `GetTTL` are left out.
- Pool.IpPool.constructor: combining network and wildcard bits is written as addition, which is the same on an aligned block.
- Router.RunStore.WriteRun: a write replaces the whole file or changes nothing; runs are filed by source name, as the hashed file names are taken to be distinct. Temporary files are left out.
- Router.Refresh: a source says "not modified" only to a validator that is not empty. A file whose time and size are both zero says so to the empty one too (server/router/fetcher.go:51); it has no entries, so only the reported result would differ. An HTTP server that answers 304 unasked is left out.
- Router.Router.Rebuild: keys under 2^16 bytes and payloads under 2^32 bytes are a premise (`Writable`), because the program does not check them; sources are refreshed one after another; what a fetch, a parse, a write and a removal come to is an input. Normalisation and filters appear only as "not empty, no trailing dot".
- Router.SameFingerprintsSameRuns: that equal fingerprints mean equal position, action and prune flag is a premise, as is that source names are distinct.
