# Verified model of the DHT core

This project models, in Dafny, the parts of the subnet node whose correctness is hard to see from
the code: the Kademlia routing table, the concurrent beam search over the network, replication and
the merging of GET answers, the expiring storage under both, the run-level guards (nonces, rate
limits, commit-reveal limits) and the codecs with inverses.
`dafny verify --warn-contradictory-assumptions dfyconfig.toml` checks everything.

How to read it:

* State that the program changes in place is a class (`RoutingTable`, `TimedStorage`,
  `LocalStorage`, `SearchState`, `SignatureAuthorizer`, `RateLimiter`, `CommitReveal`); each method
  is proved against a function on values, and the laws are proved about those functions.
* Loops that compute a value are methods with invariants (`SimpleTraverse`, `Replicate`, `Prune`,
  `EncodeInt`, `ReadUnsignedVarint`, `Regroup`, ...), proved against recursive definitions.
* The asyncio workers of `traverse_dht` are a transition system (`Traverse.dfy`). An event is one
  pass of one worker's loop or the return of one call with an arbitrary reply. This is finer than
  the program's own switching points, so every schedule of the program is a run of the model.
* Ids are natural numbers below 2^width with the width a parameter; XOR is defined bit by bit.
  Times are real numbers, and every clock reading is a parameter.

| file | models |
|---|---|
| `Arithmetic.dfy`, `XorMetric.dfy`, `Ranking.dfy` | powers of two, the XOR metric, aligned blocks, brute-force ranking |
| `KBucket.dfy`, `Table.dfy`, `TableSplits.dfy`, `TableRuns.dfy`, `TablePings.dfy`, `RoutingTable.dfy` | `subnet/dht/routing.py` |
| `Traverse.dfy`, `TraverseProofs.dfy`, `TraverseReports.dfy`, `TraverseCalls.dfy`, `TraverseTermination.dfy`, `TraverseVisited.dfy` | `traverse_dht` |
| `SimpleTraverse.dfy`, `TraverseEquivalence.dfy` | `simple_traverse_dht`, and the two compared |
| `Replication.dfy` | `on_found` in `store_many` |
| `TimedStorage.dfy`, `LocalStorage.dfy`, `SearchState.dfy`, `MixedAnswers.dfy`, `Convergence.dfy` | expiring storage, sub-key dictionaries, GET merging |
| `Nonces.dfy`, `RateLimit.dfy`, `CommitReveal.dfy` | run-level guards |
| `Positional.dfy`, `Base58.dfy`, `Varint.dfy`, `Streaming.dfy` | codecs |

Main theorems: `RoutingTable.GetNearestNeighbors`, `RunSound`, `RunConsistent` with
`SplitsCleanlyIff`, `RunTooSmallIff`, `RunMarks`, `FinishedSearch` with `StoppedIff`, `StopEndsQuery`,
`CallAsks`, `RunSafety`, `RunsEnd` with `StuckIsFinished`, `VisitedReturnedIff`,
`SingleWorkerIsSimple`, `StoreReplicas`, `Replay` with `RunStores`, `StoredStays`, `HeldWasStored` and
`RunRetention`, `GetReturns`, `ReplicasConverge` with `SearchesAgree`, `NoReplay` with `AcceptedIff`,
`AdmissionBounds` with `AdmittedIff` and `RefusedThen`, `StoreLimit`, `AnswerIff`, `DecodeEncode` with
`EncodeDecode`, `FramesRoundTrip`, `StreamRoundTrip`.

## Where the code and its promises differ

* `KBucket.split` sends an id equal to the midpoint to the left half, whose range ends there.
  `SplitInRangeIff` and `InsertInRangeIff` say exactly when ids stay in range, `SplitsCleanlyIff` which
  held ids decide it before the call, `RunConsistent` exactly when the table stays consistent, and
  `RunSound` what holds anyway.
* The "bucket too small" assertion of an insertion can fail. `TooSmallIff` and `RunTooSmallIff` say
  exactly when, and `MidpointBreaksInsert` gives an instance for every id width.
* `TimedStorage.store` promises to keep a value at least until its expiration, but a refused store
  reschedules the eviction of the value that refused it. `RetentionExact` gives the exact condition
  for one store, `RunRetention` for every run, and `RefusedStoreShortensLife` an instance.
* The branch of the traversal worker that finishes one query after popping a candidate
  (`subnet/dht/traverse.py`, lines 191-192) is never taken: `PopWithinBound`.
* The traversal documentation says that nodes marked visited beforehand are not returned.
  `VisitedReturnedIff` says exactly when one is, `VisitedIsReturned` gives a run, and
  `VisitedNotReturned` a condition that a caller can check. The store path marks the node itself and
  asserts that it is not returned, which is the requirement of `StoreReplicas`.
* The commit-reveal documentation names a lower bound for the commit phase; the code has none.
  `AcceptedIff` gives the exact condition and `EarlyCommit` an instance.
* `_SearchState` treats an expiration of exactly 0 as minus infinity. `WinnerIsGreatest`,
  `GreatestKeptIff` and `ReplicasConverge` say exactly when the search expiration is the maximum all the same, and
  `ZeroIsForgotten` gives an instance where it is not.
* Base58 accepts any alphabet. `RoundTripsIff` says which ones decode what they encode.

## Model

| member | source | states |
|---|---|---|
| XorMetric.XorInjective | subnet/dht/routing.py:275-283 | from one query, different ids are at different distances, so ranking never ties |
| XorMetric.BlockIsBall | subnet/dht/routing.py:275-283 | an aligned block of 2^m ids around the query is exactly the set of ids at XOR distance below 2^m |
| XorMetric.InsideIsNearer | subnet/dht/routing.py:129-153 | every id of the query's block is nearer than every id outside it: why climbing the bucket tree is enough |
| XorMetric.DirectionBit | subnet/dht/routing.py:133-136 | the bit that the climb reads tells whether the current block is the lower half of its parent |
| Ranking.RankedUnique | subnet/dht/routing.py:155-157 | a nearest-first list is the ranking of its own members, so results can be compared as lists |
| Ranking.SortIsRanked | subnet/dht/node.py:492-496 | sorting distinct ids by distance gives the ranking of the set |
| KBuckets.AddNodes | subnet/dht/routing.py:185-207 | adding replaces the entry of that id, changes no other node, keeps the bucket well formed, clears the ping mark of that id and no other, and reports success exactly if the node is live; otherwise the live list is full and the node waits as a replacement |
| KBuckets.AddOrder | subnet/dht/routing.py:194-207 | a node that is live or finds a free place becomes the last live one, any other the last replacement; all other nodes keep their place and order |
| KBuckets.DeleteNodes | subnet/dht/routing.py:219-231 | deleting fails exactly for ids not held, removes that node alone, and keeps the live list full while replacements wait |
| KBuckets.DeleteOrder | subnet/dht/routing.py:219-231 | when a live node goes, the newest replacement, if any, becomes the last live node; everything else keeps its place and order, and all ping marks remain |
| KBuckets.FirstUnpinged | subnet/dht/routing.py:209-214 | the node returned for a ping is the least recently updated one not already being pinged; none only if all are |
| KBuckets.SplitNodes | subnet/dht/routing.py:233-242 | a split conserves the nodes with their peers: each goes to exactly one half, and both halves are well formed |
| KBuckets.SplitInRangeIff | subnet/dht/routing.py:233-242 | both halves hold ids of their own range if and only if the midpoint itself is not held |
| KBuckets.Split | subnet/dht/routing.py:233-242 | the re-adding loop produces the two halves, and fails exactly when the range is a single id |
| Tables.IndexCovers | subnet/dht/routing.py:37-47 | in a tiling exactly one bucket covers each id |
| Tables.SplitDescends | subnet/dht/routing.py:67-81 | splitting keeps the buckets a partition into aligned blocks and puts the id one level deeper, which is why insertion ends |
| Tables.InsertKeepsShape | subnet/dht/routing.py:49-81 | every insertion keeps the partition into blocks of width 2^(width - depth) and all bucket invariants, misplaced ids or not |
| Tables.InsertConsistent | subnet/dht/routing.py:49-81 | a consistent table stays consistent if and only if no bucket split by the insertion holds its midpoint; clean or not, the lookup dictionary changes at exactly the inserted id and the reverse one at exactly its peer |
| Tables.InsertInRangeIff | subnet/dht/routing.py:49-81 | after an insertion all ids are in range if and only if none of the buckets it split held its midpoint |
| TableSplits.SplitsCleanlyIff | subnet/dht/routing.py:49-81 | no split meets its midpoint if and only if, at every depth d at which the covering bucket will be split, neither the id nor a held id is the middle of the block of that depth around the id; a depth is split exactly if the id is not live, at least `size` other held ids are at XOR distance below 2^(width - d), and every level down to d contains the owner or is off the modulus |
| TableSplits.InsertConsistentIff | subnet/dht/routing.py:49-81 | so a consistent table stays consistent if and only if that holds of the covering bucket before the call |
| Tables.InsertOutcome | subnet/dht/routing.py:49-75 | the node ends as the most recently updated live node of its bucket, or as the newest replacement in a full bucket that must not be split; then the least recently updated live node that was not yet being pinged is returned and marked, or none if all were; in every case the bucket has the marks it had, without that of the node, or none after a split |
| Tables.FullIsWide | subnet/dht/routing.py:58-75 | a bucket of in-range ids that turns a node away spans more than one id, so it can be split |
| Tables.RemoveMeaning | subnet/dht/routing.py:103-107 | on every well-formed table: deletion succeeds exactly if the covering bucket holds the id and the lookup lists it, takes it out of that bucket and of the lookup, takes the listed peer out of the reverse lookup exactly if it maps to the id, and changes nothing else; on a consistent table it succeeds exactly on listed ids and keeps consistency |
| Tables.EmptyConsistent | subnet/dht/routing.py:31-35 | a new table is consistent |
| TableRuns.InsertSound | subnet/dht/routing.py:49-81 | every insertion, clean or not, keeps ids in range or one past it, lists every node held in its covering bucket, and lists only held nodes |
| TableRuns.RemoveSound | subnet/dht/routing.py:103-107 | every deletion keeps that too, and succeeds exactly if the covering bucket holds the id |
| TableRuns.After | subnet/dht/routing.py:31-107 | after any operations whatsoever the buckets are a partition into aligned blocks, live lists are within `size`, live and replacement lists are disjoint, and replacements wait only behind a full live list |
| TableRuns.RunSound | subnet/dht/routing.py:31-107 | every run of updates and deletions keeps the table sound |
| TableRuns.TooSmallIff | subnet/dht/routing.py:49-81 | the "bucket too small" assertion fails if and only if buckets have one node, the bucket covering the id holds the next id and has not the id live, and every block around the id down to the id alone may be split |
| TableRuns.RunTooSmallIff | subnet/dht/routing.py:49-81 | the same after any run from the empty table; so it never fails with two nodes per bucket or more, and if the id width is a multiple of the modulus only the owner's own id can fail |
| TableRuns.RunConsistent | subnet/dht/routing.py:31-107 | the table is consistent at every point of a run if and only if no insertion of it meets a held id in the middle of a block it splits; then its lookup equals a plain dictionary that saw the same operations |
| TableRuns.MidpointBreaksInsert | subnet/dht/routing.py:233-242 | for ids of every width: with one-node buckets, inserting the id after the owner's and then the owner's own fails the assertion |
| TablePings.InsertMarks | subnet/dht/routing.py:49-75 | what one insertion does to the ping marks of every bucket: the node returned is marked, the node updated is not, and in buckets for the same block the others are as they were |
| TablePings.RunMarks | subnet/dht/routing.py:31-107 | in every run a node is marked as being pinged in a bucket if and only if some insertion returned it for a ping, and since then none has updated it or split the bucket |
| RoutingTables.RoutingTable.constructor | subnet/dht/routing.py:31-35 | a new object is valid and represents the empty table |
| RoutingTables.RoutingTable.GetBucketIndex | subnet/dht/routing.py:37-47 | the binary search returns the only bucket that covers the id |
| RoutingTables.RoutingTable.SplitBucket | subnet/dht/routing.py:77-81 | replaces the bucket by its halves in place, keeps the partition, fails exactly on single-id buckets |
| RoutingTables.RoutingTable.AddOrUpdateNode | subnet/dht/routing.py:49-75 | terminates by depth, keeps the table valid, and produces the specified table, failure flag and node to ping |
| RoutingTables.RoutingTable.DeleteNode | subnet/dht/routing.py:103-107 | on every valid table performs the specified deletion, also when the lookup raises after the bucket; keeps consistency, and then succeeds exactly on listed ids |
| RoutingTables.GatheredIsNearer | subnet/dht/routing.py:129-153 | the live ids gathered at any stage of the climb are nearer than all other live ids |
| RoutingTables.SelectionIsNearest | subnet/dht/routing.py:155-157 | sorting the gathered candidates and dropping the excluded one gives the k nearest of the whole table |
| RoutingTables.RoutingTable.MergeRight | subnet/dht/routing.py:138-145 | merging to the right ends exactly at the parent block, so its assertion holds, and gathers each live node once |
| RoutingTables.RoutingTable.MergeLeft | subnet/dht/routing.py:147-153 | the same to the left |
| RoutingTables.RoutingTable.GatherCandidates | subnet/dht/routing.py:123-153 | the climb ends with enough candidates or the whole space, without a failed assertion |
| RoutingTables.RoutingTable.GetNearestNeighbors | subnet/dht/routing.py:109-157 | on every valid table no internal assertion fails and the result is at most k live nodes other than the excluded one in order of distance; if ids are in range it is the first k of the ranking of all other live ids, each with its peer |
| TraversalProofs.NearestGrows | subnet/dht/traverse.py:226-235 | the bounded-heap update computes the beam_size nearest of the enlarged set of known nodes |
| TraversalProofs.DiscoverAllKeeps | subnet/dht/traverse.py:226-235 | merging a reply keeps `nearest` the beam_size nearest of all known nodes, and every near node a candidate or visited |
| TraversalProofs.ExhaustedIsVisited | subnet/dht/traverse.py:154-160 | a query without explorable candidates has had all its nearest nodes visited |
| TraversalProofs.PopWithinBound | subnet/dht/traverse.py:189-193 | popping the chosen heap never finishes a query: that branch is dead |
| TraversalProofs.CalledQueries | subnet/dht/traverse.py:195-203 | the packed queries are distinct, start with the chosen one, and none of them has visited the peer |
| TraversalProofs.TurnInv | subnet/dht/traverse.py:171-214 | one pass of a worker keeps the search invariant |
| TraversalProofs.ReturnInv | subnet/dht/traverse.py:214-239 | the return of a call, with any reply, keeps the search invariant |
| TraversalProofs.RunInv | subnet/dht/traverse.py:135-239 | the invariant holds in every state of every run, for every schedule and every reply |
| TraversalProofs.FinishedHeaps | subnet/dht/traverse.py:135-253 | from the heaps: a finished query has the beam_size nearest of all nodes known for it; unless stopped by a reply, each was asked or marked visited beforehand, and no call is in flight |
| TraversalProofs.RunSafety | subnet/dht/traverse.py:147-253 | each query is finished at most once, and once when over, with the list returned at the end; no peer is asked twice about a query or although marked visited; `active_workers` counts calls in flight; the event is set iff nothing is unfinished; a returned worker means the search is over; a parked one waits for a call of another |
| TraversalProofs.NextKeepsFinished | subnet/dht/traverse.py:162-239 | later events neither finish a query again nor change its nearest nodes |
| TraversalProofs.NeverStuck | subnet/dht/traverse.py:171-239 | while a query is unfinished some worker can take a step: no deadlock |
| TraversalReports.MergeReplyTells | subnet/dht/traverse.py:221-235 | merging a reply hears what it names for an unfinished query before it asks to stop it, and finishes the query if and only if it does |
| TraversalReports.StoppedIff | subnet/dht/traverse.py:221-235 | in every run a query has been stopped if and only if some reply of the run asked to stop it, and it has heard exactly what was named for it before that, in earlier replies and earlier in the same one |
| TraversalReports.StopEndsQuery | subnet/dht/traverse.py:162-239 | a reply that asks to stop a query ends it there and then with the beam_size nearest of what was named before; whatever happens later, it keeps that result, and no further call asks about it |
| TraversalReports.HeardIsReported | subnet/dht/traverse.py:221-235 | every node heard of for a query was named for it by some reply of the run |
| TraversalReports.ReportedIsHeard | subnet/dht/traverse.py:221-235 | unless a reply stopped the query, every node that any reply of the run named for it has been heard of |
| TraversalReports.FinishedSearch | subnet/dht/traverse.py:135-253 | in every run a finished query returns the beam_size nearest of the initial nodes and of all that replies named for it before one asked to stop it, told by the replies alone; everything else so named is farther than all of it; it is recorded as stopped if and only if a reply asked; if none did, every name counts, each returned node was asked or marked visited beforehand, and no call is in flight |
| TraversalCalls.CallAsks | subnet/dht/traverse.py:147-203 | whenever a worker calls a peer, it is the closest to the chosen query of the beam_size nearest nodes known for it that have not been asked about it; no other unfinished query with such a node has fewer calls in flight; and the call packs queries as below |
| TraversalCalls.CallPacks | subnet/dht/traverse.py:195-203 | a call packs distinct unfinished queries that have not visited the peer, within the limit; any such query left out is farther from the peer than all packed, and there was no room for it |
| TraversalTermination.RunsEnd | subnet/dht/traverse.py:171-239 | if peers report nodes of a finite set only, every run has at most (2n + 5)uq + n events for n workers, u nodes and q queries |
| TraversalTermination.StuckIsFinished | subnet/dht/traverse.py:171-253 | a run that cannot continue has finished every query exactly once, left no worker ready or in a call, and some worker has returned, so the whole search returns |
| TraversalVisited.AmongNearest | subnet/dht/traverse.py:162-169 | a node is among the k nearest of a set exactly if fewer than k members are nearer |
| TraversalVisited.VisitedReturnedIff | subnet/dht/traverse.py:135-253 | a node marked visited beforehand is returned if and only if one was initial or named by a reply of the run, before the stop if there was one, and fewer than beam_size such nodes are nearer |
| TraversalVisited.VisitedNotReturned | subnet/dht/traverse.py:135-253 | if neither the initial nodes nor any reply for the query names such a node, none is returned |
| TraversalVisited.VisitedIsReturned | subnet/dht/traverse.py:188-235 | a run of four events, for any query and nodes, that returns a node marked visited beforehand |
| TraversalTermination.TurnLower | subnet/dht/traverse.py:171-214 | every pass of a worker lowers the potential of the state |
| TraversalTermination.ReturnLower | subnet/dht/traverse.py:214-239 | so does every returning call, although it may wake all workers and add candidates |
| SimpleTraversal.SearchMeaning | subnet/dht/traverse.py:36-69 | the sequential search keeps the beam_size nearest of all nodes seen, and unless interrupted has seen all neighbours of what it returns |
| SimpleTraversal.ResultMeaning | subnet/dht/traverse.py:36-69 | the same from the initial heaps: the result is the head of the ranking of everything seen outside the excluded nodes |
| SimpleTraversal.PushEachNearest | subnet/dht/traverse.py:61-67 | for any list of new neighbours, repetitions included, the beam stays the first beam_size of everything found in order of distance |
| SimpleTraversal.MergeUnseen | subnet/dht/traverse.py:61-67 | the inner loop over new neighbours performs these heap updates |
| SimpleTraversal.SimpleTraverse | subnet/dht/traverse.py:36-69 | for any answers the two-heap loop terminates and returns the first beam_size of everything found, as often as it was named, in order of distance; the excluded nodes are neither asked nor returned; unless interrupted all neighbours of the result were seen; if nothing is named twice, it is the search on sets and the nearest of all visited nodes outside the excluded ones |
| TraversalEquivalence.DiscoverIsPush | subnet/dht/traverse.py:226-235 | merging a reply in the concurrent search is the merge of the sequential one |
| TraversalEquivalence.RunSimulates | subnet/dht/traverse.py:135-253 | every state of a one-worker run corresponds to a point of the sequential search |
| TraversalEquivalence.SingleWorkerIsSimple | subnet/dht/traverse.py:36-69 | with one query, one worker and no interruption, every finished run of `traverse_dht` returns the nodes of `simple_traverse_dht` in the same order, for every neighbour oracle |
| Replication.NeededResponders | subnet/dht/node.py:518-560 | the responsive nodes of the shortest sufficient prefix are the first responsive nodes of all |
| Replication.Dispatch | subnet/dht/node.py:521-560 | dispatching the next candidate keeps successes plus pending calls within num_replicas, and candidates are tried in order of distance |
| Replication.Tally | subnet/dht/node.py:563-569 | a completed call moves from pending to stored if it succeeded, and the bound is kept |
| Replication.Complete | subnet/dht/node.py:563-569 | the tally loop handles any nonempty set of completed calls, in any order |
| Replication.Replicate | subnet/dht/node.py:518-575 | for every completion order the loop ends without pending calls, has contacted the shortest sufficient prefix, and has stored on exactly the nearest num_replicas responsive candidates |
| Replication.StoreReplicas | subnet/dht/node.py:489-575 | the same from the unsorted nearest nodes, with the node itself as an optional candidate that always succeeds |
| TimedStorages.PurgeMeaning | subnet/utils/timed_storage.py:61-69 | a purge removes every overdue key, keeps the rest unchanged, and drops a key that was not overdue only if the limit is reached by keys due later |
| TimedStorages.UnlimitedPurge | subnet/utils/timed_storage.py:61-69 | without a size limit exactly the overdue keys go |
| TimedStorages.StoreBounded | subnet/utils/timed_storage.py:71-87 | no store lets a key outlive its value |
| TimedStorages.StoreAnswer | subnet/utils/timed_storage.py:71-87 | a store is accepted if and only if it comes in time, or to a frozen storage, and the key is new or held with an earlier expiration; a refused one leaves what every key holds; an accepted one to a held key changes that key only; one to a new key holds it, and keeps the others, up to what the purge makes leave |
| TimedStorages.StoredIsFound | subnet/utils/timed_storage.py:71-94 | with room for every key an accepted value is found until its expiration |
| TimedStorages.LookupIsCurrent | subnet/utils/timed_storage.py:89-94 | an unfrozen lookup never returns an expired value and leaves the size within the limit |
| TimedStorages.Head | subnet/utils/timed_storage.py:101-110 | the entry returned is that of the key due to leave first; none only if there is no key |
| TimedStorages.RetentionExact | subnet/utils/timed_storage.py:71-87 | after a store to a held key it is available exactly until the expiration of that store; the promise to a value that refused is kept if and only if both expire together |
| TimedStorages.RunRetention | subnet/utils/timed_storage.py:55-128 | in every run on an unlimited, unfrozen storage with a clock that does not go back, a key is found at t if and only if the last store to it that was not too late, accepted or not, expires no earlier than t, and the key was not deleted since |
| TimedStorages.RefusedStoreShortensLife | subnet/utils/timed_storage.py:78-84 | a refused store that makes a stored value vanish before its expiration |
| TimedStorages.TimedStorage.constructor | subnet/utils/timed_storage.py:55-59 | a new storage is the empty map; a limit of 0 means none |
| TimedStorages.RootIsFirst | subnet/utils/timed_storage.py:101-110 | a current heap root belongs to the key that is due to leave first |
| TimedStorages.TimedStorage.RemoveOutdated | subnet/utils/timed_storage.py:61-69 | the purge loop over the heap with ghost entries, which reads the clock on every turn, equals the purge of the flat map at its last reading |
| TimedStorages.TimedStorage.PopRoot | subnet/utils/timed_storage.py:67-69 | popping a ghost entry changes nothing, popping a current one removes the first key |
| TimedStorages.TimedStorage.StoreValue | subnet/utils/timed_storage.py:71-87 | refines the store on the flat map, acceptance flag included |
| TimedStorages.TimedStorage.Get | subnet/utils/timed_storage.py:89-94 | refines the lookup, and an unfrozen one returns no expired value |
| TimedStorages.TimedStorage.Top | subnet/utils/timed_storage.py:101-110 | never reads an empty heap and returns the key due to leave first |
| TimedStorages.TimedStorage.Delete | subnet/utils/timed_storage.py:125-128 | removes the key and leaves its heap entry as a ghost |
| TimedStorages.TimedStorage.SetFrozen | subnet/utils/timed_storage.py:136-143 | entering or leaving a freeze block changes only the flag and returns its previous value |
| TimedStorages.Replay | subnet/utils/timed_storage.py:55-143 | under every sequence of operations the storage answers exactly as the flat map |
| TimedStorages.RunStores | subnet/utils/timed_storage.py:71-87 | in every run the answer to a store is true if and only if it comes in time, or while frozen, and what the operations before left under the key, if anything, expires earlier |
| TimedStorages.StoredStays | subnet/utils/timed_storage.py:71-94 | in every run on an unlimited storage, after a store answered with true every lookup no later than its expiration finds exactly that value, unless the key was stored to or deleted in between |
| TimedStorages.HeldWasStored | subnet/utils/timed_storage.py:55-143 | in every run on a new storage of any limit, what a key holds is the value of the last accepted store to it, and it has not been deleted since |
| TimedStorages.RunBounded | subnet/utils/timed_storage.py:55-143 | in every reachable state no key outlives its value |
| LocalStorages.LocalStorage.StoreAny | subnet/dht/storage.py:38-49 | dispatches to the regular or the sub-key store |
| LocalStorages.LocalStorage.StoreUnder | subnet/dht/storage.py:51-69 | creates, extends or overwrites the dictionary under the key as specified, with the refresh of the outer expiration; the lookup, the store to the dictionary and the store of the dictionary each read the clock for themselves |
| LocalStorages.SubkeyStartsDictionary | subnet/dht/storage.py:59-63 | with no value or an earlier regular one under the key, a sub-key store is accepted if and only if it comes in time, or to a frozen storage; then the key holds a dictionary with this entry alone, due with it |
| LocalStorages.SubkeyRefused | subnet/dht/storage.py:64-69 | a regular value that does not expire earlier refuses every sub-key and stays |
| LocalStorages.ItemJoins | subnet/dht/storage.py:16-18 | a dictionary takes an entry if and only if it comes in time, or to a frozen dictionary, and the sub-key is new or expires earlier; a refused one changes no entry, an accepted one only its own, up to what the purge after a new sub-key drops |
| LocalStorages.SubkeyJoinsDictionary | subnet/dht/storage.py:64-67 | a sub-key store to a key with a dictionary stores into that and answers as it does; no other key changes, and the key's own expiration grows exactly if this comes in time and expires after everything offered to the dictionary and after the key |
| LocalStorages.UnpackedIsRebuilt | subnet/dht/storage.py:25-32 | whatever the order of the received items and the clock, storing them into the frozen dictionary rebuilds every entry, due at its own expiration |
| LocalStorages.Unpack | subnet/dht/storage.py:25-32 | the re-storing loop, with the freeze and the copied latest expiration |
| SearchStates.SearchState.AddCandidate | subnet/dht/node.py:1061-1087 | refines the value-level merge for whatever order the candidate's items are iterated in, each item once |
| SearchStates.AbsorbNothing | subnet/dht/node.py:1061-1069 | an empty answer changes nothing, and no answer changes a finished search |
| SearchStates.SearchState.FinishSearch | subnet/dht/node.py:1093-1137 | refines the conclusion below; a finished search is left as it is, and no outcome results exactly if a date is known but no value |
| SearchStates.ConcludeMeaning | subnet/dht/node.py:1093-1137 | concluding twice changes nothing, even later; nothing is found exactly if no date is known; a regular value is returned as held, with the date; a dictionary is returned with entries of the merged one that a purge leaves, none overdue, and with all of those if it has no limit |
| SearchStates.LargerLimitIsRoomier | subnet/dht/node.py:1073-1075 | a merged dictionary has room for whatever one of the two had room for |
| SearchStates.Merge | subnet/dht/node.py:1076-1079 | the loop stores every item of the candidate exactly once, in an arbitrary order |
| MixedAnswers.WinsUnique | subnet/dht/node.py:1080-1087 | at most one answer of a sequence can date the search |
| MixedAnswers.NextWins | subnet/dht/node.py:1080-1087 | one more answer dates the search exactly if it expires after the answer that dates it, or that one expires at 0 |
| MixedAnswers.WinnerIsGreatest | subnet/dht/node.py:1080-1087 | the answer that dates a search has the greatest expiration if and only if that is not 0 or the last answer has it; it is the first that has it, or the last if it is 0 |
| MixedAnswers.GoesOn | subnet/dht/node.py:1061-1087 | without a sufficient answer, regular or not, the search holds the value of the answer that dates it if that is regular; otherwise all dictionaries since one took over, no regular answer having dated it since |
| MixedAnswers.GetReturns | subnet/dht/node.py:1061-1137 | what a GET returns for any sequence of regular and dictionary answers: those up to the first sufficient one count; the one of them that dates the search is the source, and its value is returned if it is regular, else the dictionaries combined since one took over |
| MixedAnswers.RegularReturns | subnet/dht/node.py:1061-1137 | for regular answers the outcome is value and expiration of the first with the greatest expiration of those that count, exactly unless that is 0 and the last of them is negative |
| Convergence.BestUnique | subnet/dht/storage.py:16-18 | without ties the greatest-expiration dictionary of a set of stores is unique |
| Convergence.StoreItemPuts | subnet/dht/storage.py:16-18 | before anything expires a sub-key store is last-expiration-wins and tracks the latest expiration |
| Convergence.ReplicaHoldsBest | subnet/dht/storage.py:51-69 | whatever the order in which a replica receives stores, each sub-key ends with its greatest-expiration record and the key with the latest expiration |
| Convergence.AnswerCarries | subnet/dht/storage.py:20-32 | an answer packed and unpacked before anything expires carries the best of what its replica received, and its latest expiration |
| Convergence.NextReply | subnet/dht/node.py:1061-1087 | merging one more answer gives the best of both sets of stores, whether it ends the search or not |
| Convergence.AbsorbNested | subnet/dht/node.py:1061-1087 | an answer raises the search expiration to the greater of the two if and only if it was not 0 or the answer's is not negative; it ends the search with the merged entries exactly if its expiration is greater and sufficient |
| Convergence.GreatestKeptIff | subnet/dht/node.py:1080-1087 | a search ends with the greatest expiration of its answers if and only if that is not 0 or the last answer has it |
| Convergence.ZeroIsForgotten | subnet/dht/node.py:1083-1085 | two answers, expiring at 0 and before, after which the search expiration is not the greater |
| MixedAnswers.OutcomeIsFinal | subnet/dht/node.py:1061-1091 | once the search has an outcome, no later answer changes anything |
| Convergence.HeededGivesBest | subnet/dht/node.py:1061-1091 | the first sufficient answer ends the search with the best of the answers up to it; without one the search holds the best of all answers |
| Convergence.ReplicasConverge | subnet/dht/node.py:1061-1137 | stores spread over replicas in any way and order, answers merged in any order, the search ended by its first sufficient answer or by its caller: what it returns is the greatest-expiration record of each sub-key over the replicas whose answers counted, and its expiration is the maximum exactly unless that is 0 and the last of those answers is negative; always if no expiration is negative |
| Convergence.SearchesAgree | subnet/dht/node.py:1061-1137 | two searches whose counted answers come from the same stores, without ties, return the same entries, and the same expiration if none is negative, whatever their limits for sufficiency |
| Nonces.SignatureAuthorizer.ValidateRequest | subnet/utils/authorizers/auth.py:118-175 | both membership tests, the time window and the recording of the nonce, on a real expiring storage, as specified |
| Nonces.RunRemembers | subnet/utils/authorizers/auth.py:164-175 | in every run an accepted nonce stays in the store for three windows |
| Nonces.NoReplay | subnet/utils/authorizers/auth.py:116-175 | two accepted requests with the same nonce carry time stamps more than a minute apart; so none is accepted twice |
| Nonces.ValidateIff | subnet/utils/authorizers/auth.py:118-175 | a request is accepted if and only if it is genuine, for this service, stamped within 60 seconds of the local clock, and its nonce is not in the store; a refused one changes nothing |
| Nonces.FreshIsAccepted | subnet/utils/authorizers/auth.py:118-175 | in every run every genuine, timely request for this service is accepted whose nonce no accepted request has carried before |
| Nonces.AcceptedIff | subnet/utils/authorizers/auth.py:118-175 | in every run a request is accepted if and only if it is genuine, for this service and timely, and after every accepted request with its nonce another has been accepted more than three minutes later |
| RateLimits.Prune | subnet/utils/authorizers/rate_limit.py:200-203 | the clean-up loop drops exactly the leading requests older than the cutoff |
| RateLimits.RateLimiter.CheckRateLimit | subnet/utils/authorizers/rate_limit.py:176-221 | decides and records for this peer as specified and touches no other peer |
| RateLimits.RateLimiter.StillBlocked | subnet/utils/authorizers/rate_limit.py:181-195 | refuses banned and still blocked peers, and lifts a block that has run out |
| RateLimits.RateLimiter.HandleThreat | subnet/utils/authorizers/rate_limit.py:257-291 | punishes by level for this peer only |
| RateLimits.RateLimiter.RecordViolation | subnet/utils/authorizers/rate_limit.py:307-313 | counts the violation for this peer only; from five on it escalates the peer to suspicious, which counts once more and neither blocks nor bans |
| RateLimits.WindowBound | subnet/utils/authorizers/rate_limit.py:176-221 | if any limit + 1 admissions span the window, no window anywhere holds more than the limit |
| RateLimits.NextWithinLimits | subnet/utils/authorizers/rate_limit.py:176-255 | one event keeps the deque the end of the history and the history within the limits |
| RateLimits.AdmissionBounds | subnet/utils/authorizers/rate_limit.py:176-255 | in every run every minute, hour and second, wherever it lies, contains at most the configured number of admitted requests |
| RateLimits.BannedForGood | subnet/utils/authorizers/rate_limit.py:176-285 | once violations reach the ban count no later request of the peer is admitted |
| RateLimits.BlockHolds | subnet/utils/authorizers/rate_limit.py:181-195 | in every run, once a peer is blocked until some time, no request of it before that time is admitted, and nothing shortens or prolongs the block |
| RateLimits.UsedUpBlocks | subnet/utils/authorizers/rate_limit.py:176-291 | in every run, a request that finds the minute or the hour used up by the requests admitted so far, and no worse, blocks its peer: nothing of it is admitted for the block duration from then on |
| RateLimits.AdmittedIff | subnet/utils/authorizers/rate_limit.py:176-255 | in every run a request is admitted if and only if the peer is not banned or blocked and has fewer violations than the ban count, and the requests admitted so far number less than the limits for a burst, a minute and an hour in their windows, and not more than the suspicious, blocking and ban rates allow |
| RateLimits.RefusedThen | subnet/utils/authorizers/rate_limit.py:176-291 | in every run, what a refusal does by the same counts: nothing to a peer that is shut out; otherwise one violation, no request recorded, the level raised, and a ban or a block of a day, an extended block, a temporary block, or none |
| RateLimits.OffenceThen | subnet/utils/authorizers/rate_limit.py:307-313 | an offence counts once, from the fifth violation on twice, and neither blocks nor bans |
| CommitReveals.CommitReveal.Call | subnet/app/utils/mock_commit_reveal.py:164-254 | judges a request and updates the nested counters as specified |
| CommitReveals.CommitReveal.CleanupOldEpochs | subnet/app/utils/mock_commit_reveal.py:128-140 | the deletion loop drops exactly the epochs that are too old |
| CommitReveals.JudgeCounts | subnet/app/utils/mock_commit_reveal.py:105-126 | one request raises one counter by one exactly if it is an accepted store, and then the limit was not reached |
| CommitReveals.RunCounts | subnet/app/utils/mock_commit_reveal.py:105-140 | in every chronological run the tracker counts exactly the accepted stores of the epochs it still holds |
| CommitReveals.TrackerRemembers | subnet/app/utils/mock_commit_reveal.py:128-140 | of the current epoch and the five before it no accepted store is forgotten |
| CommitReveals.StoreLimit | subnet/app/utils/mock_commit_reveal.py:105-140 | accepted stores per epoch, kind and peer never exceed the limit, although old epochs are forgotten |
| CommitReveals.CommitsBeforeReveals | subnet/app/utils/mock_commit_reveal.py:164-254 | every accepted commit of an epoch precedes every accepted reveal of it |
| CommitReveals.AcceptedIff | subnet/app/utils/mock_commit_reveal.py:164-254 | in every chronological run a store is accepted if and only if the peer has stores of its kind left in the epoch and it is timely; for a commit: none accepted yet, before the commit deadline, expiring within two epochs |
| CommitReveals.AnswerIff | subnet/app/utils/mock_commit_reveal.py:164-254 | in every chronological run, the answer to every request: a GET of a valid peer is granted and changes nothing; a heartbeat needs fewer than 100 before it in the epoch and 1980 seconds; a commit or reveal must be the first of the peer, for the current epoch, within 3600 seconds, by half of the epoch, or after half and by three fifths; all else is refused |
| CommitReveals.EarlyCommit | subnet/app/utils/mock_commit_reveal.py:234-238 | a commit at the very start of an epoch is accepted |
| CommitReveals.TrackerBounded | subnet/app/utils/mock_commit_reveal.py:128-140 | after every request of a chronological run at most MAX_EPOCH_HISTORY + 1 epochs are tracked |
| Positional.DigitsOfValue | subnet/utils/base58/__init__.py:35-48 | digit strings without leading zeros and numbers correspond one to one |
| Positional.ValueIsPositional | subnet/utils/base58/__init__.py:85-107 | every digit counts for a power of the base, the first for the highest |
| Positional.ByteLength | subnet/utils/base58/__init__.py:110-126 | the byte count computed from the bit length is the number of base-256 digits |
| Base58.BitcoinAlphabetIsValid | subnet/utils/base58/__init__.py:19-20 | the default alphabet is the 58 digits and letters without 0, O, I and l, in order, distinct and without white space |
| Base58.EncodeInt | subnet/utils/base58/__init__.py:35-48 | the division loop yields the digits of the number in the alphabet's base |
| Base58.DecodeInt | subnet/utils/base58/__init__.py:85-107 | the multiplication loop yields the value, or fails on a foreign character |
| Base58.EncodeBytes | subnet/utils/base58/__init__.py:51-66 | computes the encoding whose inverse is proved below |
| Base58.DecodeBytes | subnet/utils/base58/__init__.py:110-126 | stripping, counting leading digits, the integer decoding and the fixed-length byte conversion compute the decoding, for any alphabet |
| Base58.DecodeEncode | subnet/utils/base58/__init__.py:51-126 | decoding an encoding returns every byte string, leading zeros and the empty string included |
| Base58.EncodeDecode | subnet/utils/base58/__init__.py:51-126 | encoding a decoding returns every string over the alphabet |
| Base58.DecodeFailsIff | subnet/utils/base58/__init__.py:85-107 | decoding fails if and only if a character before the trailing white space is outside the alphabet |
| Base58.RoundTripsIff | subnet/utils/base58/__init__.py:51-126 | every byte string survives encoding and decoding if and only if the alphabet has distinct characters and no white space |
| Varints.WriteVarint | subnet/p2p/p2p_daemon_bindings/utils.py:36-51 | sends seven bits a byte, least significant first, or rejects negative and oversized numbers |
| Varints.BytesOf300 | subnet/p2p/p2p_daemon_bindings/utils.py:36-51 | 300 takes the bytes 0xAC and 0x02, as in the multiformats specification |
| Varints.ReadUnsignedVarint | subnet/p2p/p2p_daemon_bindings/utils.py:54-68 | the loop computes the specified reading, early overflow and end of stream included |
| Varints.OrIsSum | subnet/p2p/p2p_daemon_bindings/utils.py:54-68 | shifting and or-ing is base-128 summation |
| Varints.ReadMeaning | subnet/p2p/p2p_daemon_bindings/utils.py:54-68 | reading succeeds if and only if the stream starts with a complete varint that fits, and returns its value and what follows |
| Varints.OverflowIff | subnet/p2p/p2p_daemon_bindings/utils.py:54-68 | reading overflows if and only if some of the first bytes of the varint have a value that does not fit, complete or not |
| Varints.VarintRoundTrip | subnet/p2p/p2p_daemon_bindings/utils.py:36-68 | a written varint reads back whatever follows it |
| Varints.TenBytes | subnet/p2p/p2p_daemon_bindings/utils.py:36-51 | a 64-bit varint takes at most ten bytes |
| Varints.WriteMessage | subnet/p2p/p2p_daemon_bindings/utils.py:76-81 | a frame is sent exactly if the size fits in 64 bits |
| Varints.ReadMessage | subnet/p2p/p2p_daemon_bindings/utils.py:84-87 | reads the size and then exactly that many bytes |
| Varints.ReadFrameMeaning | subnet/p2p/p2p_daemon_bindings/utils.py:84-87 | a message is read if and only if the stream starts with a complete varint that fits and at least that many bytes follow; it is those bytes |
| Varints.FramesRoundTrip | subnet/p2p/p2p_daemon_bindings/utils.py:76-87 | concatenated frames read back as the same messages and consume exactly their bytes |
| Streaming.SplitForStreaming | subnet/utils/streaming.py:17-33 | the generator loop yields the head and the bare continuation chunks |
| Streaming.SplitParts | subnet/utils/streaming.py:17-33 | a message travels in as many parts as `chunks` says, or one if it has no bytes; each holds at most a chunk, all but the last exactly one, and only the first has other fields, those of the message |
| Streaming.CombineFromStreaming | subnet/utils/streaming.py:36-46 | joins all buffers into the first part; an empty stream fails |
| Streaming.CombineSplit | subnet/utils/streaming.py:17-46 | combining the parts of a message restores it in every field but `chunks` |
| Streaming.Regroup | subnet/compression/serialization.py:50-68 | the nested loops depend on the concatenated parts only, not on their batching |
| Streaming.StreamRoundTrip | subnet/compression/serialization.py:50-68 | however the parts of a list of messages are batched, regrouping recovers each message in order, in every field but `chunks` |

## Left out

- Heaps: the binary-heap layout is not modelled. A heap is the set or the pop-ordered list of its members; ids are at distinct distances, so the root is determined.
- RoutingTables.RoutingTable.GetNearestNeighbors: that the result is the k nearest is stated for tables with all ids in their bucket's range; `InsertInRangeIff` says exactly when an insertion keeps that.
- RoutingTables.RoutingTable.AddOrUpdateNode: `KBucket` objects are values inside the table object, so sharing a bucket between owners, and `last_updated`, are not modelled; nor is agreement of `peer_id_to_uid`, which is updated as in the code but is not an inverse of `uid_to_peer_id`.
- TraversalReports.FinishedSearch: exceptions of `get_neighbors`, cancellation, `await_all_tasks` and the scheduling of `found_callback` are not modelled.
- TraversalEquivalence.SingleWorkerIsSimple: stated for duplicate-free replies, nothing visited beforehand and searches that no answer interrupts.
- SimpleTraversal.SimpleTraverse: answers stay inside a finite set, which bounds the loop.
- Replication.StoreReplicas: what is stored on each node, the record validator, events and the cache update are left out; a call responds or not independently of timing.
- TimedStorages.TimedStorage.RemoveOutdated: the clock of one purge does not go back; `clear`, `items` and `__len__` are not modelled separately. For the other operations the time of a purge is its last reading.
- SearchStates.SearchState.AddCandidate: dictionaries are values, although the code aliases the first candidate's dictionary; the validator and the deserialization of values are left out.
- Convergence.ReplicasConverge: for sub-key stores only and before anything expires; what a search makes of regular and dictionary answers in any mix is `GetReturns`.
- Nonces.NoReplay: signatures and the service key are predicates of the request; the blanking of the signature field is not modelled.
- RateLimits.AdmissionBounds: the windows are ordered, short, medium, long; admission is that of `_check_rate_limit`; the surrounding `validate_request`, locks, firewall calls, statistics and logging are left out.
- CommitReveals.CommitReveal.Call: record keys are names, taken to have distinct hashes; the chain client that supplies epoch and progress is a parameter.
- Base58.DecodeBytes: the check-summed variants and the automatic correction of similar characters are left out.
- Streaming.StreamRoundTrip: compression and tensor numerics are left out, and so is protobuf serialization.
- The libp2p daemon, RPC stubs, command-line and web front ends, metrics and the substrate client are input and output plumbing.
- The cache refresh task, the reuse of pending GET requests, the blacklist and `cache_nearest` would mainly add timers and task scheduling.
- `MPFuture`, multiaddr transforms and the consensus loop depend on code outside the repository or read off single branches.
- The second versions of the storage and serializer files repeat the first.
