# Prefetching of video segments along a route: a Dafny model

A cloud planner cuts a video into segment ranges, one for each edge node a
vehicle is going to pass. Each edge node admits what it has room for, delays the
downloads in a priority queue, pins the segments for the route in a bounded
cache, and later sweeps overdue routes. The client gathers link time while it is
near a node, spends it on what the node holds, and takes the rest from the
cloud. This project models those four parts and proves what they keep.

Sizes are natural numbers, ids are strings, clocks are integers on the edge and
in the client and reals in the cloud, and Python and Go floats are reals. Code
that updates fields is a class whose methods are proved against specification
functions; the properties of whole runs are lemmas about those functions. What
the network, the clock or a peer answers is a parameter or a nondeterministic
choice.

## Files

- `Collections.dfy`: sums over maps and sets, list positions.
- `CacheModel.dfy`, `CacheRuns.dfy`, `CacheHistory.dfy`, `SegmentCache.dfy`: the
  cache as functions, whole runs of it, what its event log tells of recency and
  use, and the class.
- `EdgeModel.dfy`, `EdgeSteps.dfy`, `EdgeQueue.dfy`, `MetadataManager.dfy`:
  admission, processing and the sweep as functions, queues of admitted requests,
  and the class.
- `PriorityQueue.dfy`, `TokenProtocol.dfy`: the heap, and the producer and
  consumer that share it as interleaved steps.
- `DownloadLedger.dfy`, `BandwidthEstimate.dfy`, `TrajectoryGrouping.dfy`,
  `VisitCapacity.dfy`, `Planner.dfy`: the cloud.
- `ClientModel.dfy`, `Client.dfy`: the client.

## What the code does differently from what one might expect

The model follows the code. Each point below is proved by the members it names.

- The evictable list is kept sorted only when a later key is listed: otherwise
  the id goes to the front (`CacheRuns.SortedExactly`, over runs
  `CacheRuns.SortedRunExactly`; an instance is `CacheRuns.LruOrderLost`). With
  the end as the default it is always sorted (`CacheRuns.IntendedRunSorted`), and
  the next victim is the segment used longest ago, or one used least, by the
  event log (`CacheHistory.IntendedVictim`).
- `AddSegment` takes the request's size off `evictableSize`, `pop` the stored
  one: the sums survive exactly when they agree (`CacheModel.AddSegmentInvExactly`).
- Admission grows the wanted size and also shrinks the space. It is conservative,
  and sound for a request served at once exactly when the pending counter is not
  negative (`EdgeModel.ReservationExactly`).
- The counter can become negative, because processing settles every segment that
  is missing at its turn: one beyond the committed prefix, one that is refused,
  one that was cached at admission and evicted since. It stays non-negative
  exactly when fewer bytes than it held were missing, or exactly as many at some
  turn (`EdgeSteps.PendingStaysExactly`, from admission on
  `EdgeSteps.AdmittedStaysExactly`; an instance is `EdgeSteps.RefusalStillSettles`).
- Requests admitted one after another before any is processed are queued whole,
  whatever was committed of them, and served by due time. Processing takes whole
  offers, so all promises are kept, in whatever order, exactly when nothing but
  empty segments can be promised (`EdgeQueue.ServedExactly`); knowing every source
  does not help (`EdgeQueue.KnownSourcesBreakQueue`).
- Even requests committed whole are not safe, because cached segments without a
  route reserve nothing. Served in admission order they are all honoured exactly
  when the listed segments that could pass admission are together no larger than
  the pending counter (`EdgeQueue.QueuedExactly`; an instance is
  `EdgeQueue.ListedSegmentBreaksQueue`). Served in any order, the largest cached
  segment that could pass counts once more, pinned or not, since `AddSegment`
  wants room even for what is pinned (`EdgeQueue.AnyOrderExactly`).
- The downloader works on the request it read at the root, not on the one it
  pops. The jobs pushed are those processed, in work and queued exactly when no
  earlier job was pushed between a look and its pop (`TokenProtocol.JobsConserved`;
  `TokenProtocol.UndercutLosesJob` gives a run for any two jobs).
- The token channel is bounded. The consumer takes its last step exactly when
  more jobs are queued than the channel and a pending send hold, and it either
  gives its token back or waits for the mutex that the producer holds
  (`TokenProtocol.HaltedExactly`). For every capacity both happen
  (`TokenProtocol.ChannelCanStick`, `TokenProtocol.ChannelCanBar`).
- The list of evicted ids is emptied before each reply, so the reply names none
  unless the downloader appends one at that very moment
  (`MetadataManagers.MetadataManager.HandleAddRoute`).
- `isDownloadPossible` may start earlier than `add` does. The ledger takes a
  committed prefix of its answer whole exactly when the last of it, started from
  the running maximum, is in time (`DownloadLedger.CheckEqualsCommitExactly`). It
  takes all answers on given links exactly when no link time falls between the
  two starts and the deadline (`DownloadLedger.CheckSafeOnExactly`), on any links
  exactly when both start alike or too late for anything
  (`DownloadLedger.CheckSafeExactly`; `DownloadLedger.DriftHappens` gives a run).
- The overlap test ignores node ids, so its bound is system-wide. Recording what
  passed it is safe whatever else is tracked exactly when a request's own visits
  share no instant (`VisitCapacity.CapacityExactly`), which holds for grouped
  trajectories (`VisitCapacity.GroupedDisjoint`).
- When the ledger finds no candidate possible, the segments that fitted stay
  skipped: every index passed over is assigned, jumped over towards a playback
  point, or dropped in this way (`Planner.DownloadManager.Tiling`), and none is
  dropped exactly when the ledger finds something for every visit with candidates
  (`Planner.NothingDroppedExactly`).
- Missed segments are forwarded to a node that has already answered for the
  route, so it commits nothing, while the ledger gives its link away
  (`Planner.DownloadManager.HandleMissedDelivery`).
- When the nearest node changes, the last stretch of the old contact is counted
  at the new node's bandwidth (`Clients.Client.ChangeContact`).
- A segment that a node lists twice is downloaded and counted twice
  (`ClientModel.ConservedExactly`).
- An immediate second sweep leaves the cache unchanged
  (`EdgeSteps.SecondSweepChangesNothing`), and reports the same undelivered list
  unless a segment of it repeats one of the unused ones (`EdgeSteps.SecondSweep`).

## Model

| member | source | states |
|---|---|---|
| CacheModel.PopNInv | src/edge_go/segmentcache.go:132-146 | any number of evictions keeps the map, the list, both sums and the size bound in agreement |
| CacheModel.PopNFrame | src/edge_go/segmentcache.go:132-146 | evictions remove exactly the leading listed ids and leave every other entry, the log and the clock alone |
| CacheModel.AcceptsExactly | src/edge_go/segmentcache.go:150-172 | room is found if and only if the free space reported to admission is at least the size, and with one victim fewer there is no room |
| CacheModel.AddSegmentListInv | src/edge_go/segmentcache.go:258-298 | whatever sizes calls carry, an id is listed once, exactly when it is cached without a route |
| CacheModel.TouchSums | src/edge_go/segmentcache.go:112-128 | the drift of evictableSize when a promoted segment is requested with another size |
| CacheModel.AddSegmentInvExactly | src/edge_go/segmentcache.go:258-298 | the sums and the bound survive a call if and only if it is refused or its size agrees with that of a segment it promotes |
| CacheModel.UpdateSegmentStatusInv | src/edge_go/segmentcache.go:301-320 | releasing a pin keeps the whole invariant, listing the segment when that was its last route |
| CacheModel.AddSegmentFreeSpace | src/edge_go/segmentcache.go:258-328 | an accepted call lowers the free space by 0 if the segment was pinned and by its size otherwise, even if it was evicted to make room for itself |
| CacheModel.AddSegmentEntries | src/edge_go/segmentcache.go:258-298 | an accepted call drops exactly the evicted ids, gives the segment its route, the new touch time and one use more (none if it is new), and leaves every other entry alone |
| CacheModel.AddSegmentLog | src/edge_go/segmentcache.go:258-298 | it keeps the others listed in their order, counts evictions and promotion, and logs the push or touch first, then the pops in order |
| CacheModel.ReleaseExactly | src/edge_go/segmentcache.go:196-228 | a release takes the pin, and when it was the last lists the segment before the first one touched later (or used more), else in front |
| CacheRuns.PinSafety | src/edge_go/segmentcache.go:258-320 | after any run a route pins a segment if and only if an accepted addition (or the start) was not followed by that route's release |
| CacheRuns.PinStep | src/edge_go/segmentcache.go:258-320 | one call changes the pin of exactly the segment and route it names |
| CacheRuns.OnlyUnpinnedEvicted | src/edge_go/segmentcache.go:132-172 | a segment that leaves the cache had no route and was among the first in line |
| CacheRuns.RunInv | src/edge_go/segmentcache.go:258-320 | the structural invariant holds after every run whose calls carry one size per id |
| CacheRuns.LogConservation | src/edge_go/segmentcache.go:184-193 | over every run pushes minus pops is 1 per cached id and 0 otherwise, and list length, eviction count and bytes in use follow from the log |
| CacheRuns.SortedExactly | src/edge_go/segmentcache.go:196-228 | one call keeps the list sorted by the policy's key if and only if what it lists has an empty list, a larger listed key, or a key not above the first |
| CacheRuns.LruOrderExactly | src/edge_go/segmentcache.go:97-100 | with the cache's strictly advancing clock the last of those cases never helps LRU |
| CacheRuns.SortedRunExactly | src/edge_go/segmentcache.go:196-228 | the list is sorted after every call of a run if and only if every listing of the run goes in order |
| CacheRuns.RunTimes | src/edge_go/segmentcache.go:97-100 | touch times are pairwise distinct after every run |
| CacheRuns.EndPositionKeepsOrder | src/edge_go/segmentcache.go:196-213 | inserting at the first larger key, and else at the end, always keeps order |
| CacheRuns.IntendedStep | src/edge_go/segmentcache.go:196-228 | the run with the end as default position adds and releases as the cache does, and differs only in where it lists: before the first one touched later (or used more), else last |
| CacheRuns.IntendedRunSorted | src/edge_go/segmentcache.go:196-228 | with that default position the list is sorted in every reachable state, under either policy |
| CacheRuns.LruOrderLost | src/edge_go/segmentcache.go:199-211 | four calls on an empty cache after which the next victim is the more recently touched segment |
| CacheHistory.MetadataFromLog | src/edge_go/segmentcache.go:268-297 | over every run touch times are ordered as the last push or touch of each segment in the log, and the use count is the number of touches since the last push |
| CacheHistory.OrderFromLog | src/edge_go/segmentcache.go:196-228 | in every reachable state the list is sorted if and only if it is in the order of last uses, or of use counts, in the log |
| CacheHistory.IntendedVictim | src/edge_go/segmentcache.go:132-146 | with the end as the default position the next victim is, in every reachable state, the unpinned segment used longest ago, or one used least, by the log |
| SegmentCaches.SegmentCache.constructor | src/edge_go/segmentcache.go:67-78 | a new cache is the empty one |
| SegmentCaches.SegmentCache.UpdateEvictable | src/edge_go/segmentcache.go:112-128 | removes the one occurrence of the id, and answers whether there was one |
| SegmentCaches.SegmentCache.PopFirst | src/edge_go/segmentcache.go:132-146 | evicts the first listed segment, or reports an empty list and changes nothing |
| SegmentCaches.SegmentCache.IsSegmentCacheFull | src/edge_go/segmentcache.go:150-172 | evicts as many segments as the specification's victims, in order, and reports full exactly when the size cannot fit |
| SegmentCaches.SegmentCache.Insert | src/edge_go/segmentcache.go:175-182 | yields prefix, value and suffix |
| SegmentCaches.SegmentCache.AddEvent | src/edge_go/segmentcache.go:184-193 | appends one event and changes nothing else |
| SegmentCaches.SegmentCache.AddToEvictable | src/edge_go/segmentcache.go:196-228 | lists the segment where the code puts it, with its size and its event |
| SegmentCaches.SegmentCache.HasSegment | src/edge_go/segmentcache.go:233-239 | answers whether the id is cached |
| SegmentCaches.SegmentCache.DeliveredSegment | src/edge_go/segmentcache.go:244-254 | answers true exactly when the route does not pin the segment |
| SegmentCaches.SegmentCache.AddSegment | src/edge_go/segmentcache.go:258-298 | fails exactly when there is no room, then changing nothing; else the new state and the evicted ids are those of the specification |
| SegmentCaches.SegmentCache.UpdateSegmentStatus | src/edge_go/segmentcache.go:301-320 | the new state is that of the specification |
| SegmentCaches.SegmentCache.GetAvailableFreeSpace | src/edge_go/segmentcache.go:322-328 | answers the free space the exactness lemma is about |
| EdgeModel.CostExactly | src/edge_go/segmentcache.go:258-328 | accepted additions take exactly the sizes of the ids not pinned at the start, each once |
| EdgeModel.AllAcceptedExactly | src/edge_go/segmentcache.go:258-328 | a run of additions is accepted throughout if and only if each finds room beside what is new before it |
| EdgeModel.SourceExactly | src/edge_go/metamanager.go:136-146 | an address with "ftp" anywhere in it stands for the one cloud source, any other for itself |
| EdgeModel.CommittedExactly | src/edge_go/metamanager.go:126-162 | admission commits the longest prefix of segments each of which fits, with what comes before it counted twice, and is cached or has a known source |
| EdgeModel.Reservation | src/edge_go/metamanager.go:126-190 | with the pending counter not negative, everything admission commits is accepted in order and then pinned for the route |
| EdgeModel.ReservationExactly | src/edge_go/metamanager.go:126-162 | admission's every promise can be kept if and only if the pending counter is not negative; any address of a known source will do as witness |
| EdgeModel.PromotionTakesSpace | src/edge_go/segmentcache.go:322-328 | adding a listed segment makes the whole free space no longer available |
| EdgeQueue.HonouredIsAccepted | src/edge_go/metamanager.go:353-390 | promises of whole requests are kept if and only if every addition of the queue is accepted |
| EdgeQueue.ServedExactly | src/edge_go/metamanager.go:346-390 | whatever requests with distinct tokens are admitted before any is processed, all promises are kept, in admission order or any, if and only if the free space less the pending counter is not positive |
| EdgeQueue.KnownSourcesBreakQueue | src/edge_go/metamanager.go:495-502 | two requests with known sources of which the second was promised what the uncommitted rest of the first takes |
| EdgeQueue.QueuedReservations | src/edge_go/metamanager.go:126-190 | requests committed whole and served in admission order are all kept, if the listed segments among them are together no larger than the pending counter |
| EdgeQueue.QueuedExactly | src/edge_go/metamanager.go:126-190 | all such queues are kept if and only if the listed segments that could pass admission are together no larger than the pending counter |
| EdgeQueue.AnyOrderExactly | src/edge_go/metamanager.go:322-390 | all such queues are kept in every serving order if and only if those and, once more, the largest cached segment that could pass are together no larger than the pending counter |
| EdgeQueue.ListedSegmentBreaksQueue | src/edge_go/metamanager.go:134-160 | for every non-empty listed segment two requests are promised that cannot both be kept |
| EdgeSteps.BatchIsRun | src/edge_go/metamanager.go:167-190 | adding a batch is the run of its additions, refused ones being skipped |
| EdgeSteps.BatchExactly | src/edge_go/metamanager.go:167-190 | its answer lists the ids accepted at their turn, its evicted ids are the pops logged meanwhile, its size is what was missing at its turn |
| EdgeSteps.AttemptedExactly | src/edge_go/metamanager.go:353-388 | a segment of a processed request is tried if and only if all before it were accepted |
| EdgeSteps.OriginsExactly | src/edge_go/metamanager.go:353-408 | local are the bytes at positions whose id was found in the cache, edge those tried, missing, named no cloud address and delivered, cloud all others |
| EdgeSteps.HistoryExactly | src/edge_go/metamanager.go:375-383 | the history gains, in order, one record for each segment missing at its turn, with that turn's clock |
| EdgeSteps.CommittedAccepted | src/edge_go/metamanager.go:353-408 | processing next never refuses before everything committed is in |
| EdgeSteps.AdmittedThenPinned | src/edge_go/metamanager.go:353-408 | admission, then processing of the whole offer, leaves each committed segment pinned |
| EdgeSteps.PendingBalances | src/edge_go/metamanager.go:134-187 | a request committed whole, with distinct segments none of them listed, leaves the pending counter as before |
| EdgeSteps.PendingStaysExactly | src/edge_go/metamanager.go:167-190 | a processed request leaves the counter non-negative if and only if fewer bytes than it held were missing at their turn, or exactly as many at some turn |
| EdgeSteps.AdmittedStaysExactly | src/edge_go/metamanager.go:134-187 | the same from admission on, where only the missing part of the commitment was reserved |
| EdgeSteps.AccountsAddUp | src/edge_go/metamanager.go:394-408 | local, edge and cloud bytes together are the size of the request |
| EdgeSteps.SweepOne | src/edge_go/metamanager.go:192-229 | sweeping one more route, in any order, takes exactly its unused pins and reports what an undisturbed cache would |
| EdgeSteps.SweptUnused | src/edge_go/metamanager.go:192-229 | after the sweep no leading unused segment of an overdue route is pinned by it |
| EdgeSteps.SweepExactly | src/edge_go/metamanager.go:192-229 | until arrival plus contact time plus threshold has passed a route keeps every pin and is not reported; after it, it loses the pins of its unused prefix and what it pins behind that is reported in order |
| EdgeSteps.SecondSweep | src/edge_go/metamanager.go:192-229 | a second sweep finds nothing unused, and reports the same list if and only if no reported segment repeats an unused one |
| EdgeSteps.SecondSweepChangesNothing | src/edge_go/metamanager.go:192-229 | an immediate second sweep leaves the cache exactly as it is |
| EdgeSteps.SweepKeeps | src/edge_go/metamanager.go:192-229 | a sweep keeps the structural invariant, the stored sizes, the log's accounts and distinct touch times |
| EdgeSteps.SweepIsRun | src/edge_go/metamanager.go:192-229 | a sweep only continues the run of the cache, so all that holds over runs goes on holding |
| MetadataManagers.MetadataManager.constructor | src/edge_go/metamanager.go:75-124 | a new manager is empty and its proportion is within 0 and 1 |
| MetadataManagers.PriorityExactly | src/edge_go/metamanager.go:490-493 | a download waits for the proportional share of the time left, to the nearest unit, halves away from zero |
| MetadataManagers.MetadataManager.CanAddSegments | src/edge_go/metamanager.go:126-162 | commits the longest prefix that can be granted and adds its bytes at uncached positions to the pending counter |
| MetadataManagers.MetadataManager.AddSegments | src/edge_go/metamanager.go:167-190 | cache, answer, evicted ids and pending counter are those of the batch |
| MetadataManagers.MetadataManager.HandleAddRoute | src/edge_go/metamanager.go:468-510 | answers a prefix, nothing for a route already seen; leaves the cache alone; queues one job for the whole request |
| MetadataManagers.MetadataManager.ProcessRequest | src/edge_go/metamanager.go:346-408 | adds segments up to the first refusal, settles each one tried, records downloads at the clock of their turn, and accounts every position of the request to cache, edge or cloud |
| MetadataManagers.MetadataManager.GetOverdueSegments | src/edge_go/metamanager.go:192-229 | in any map order: a route whose time has not passed keeps its pins and is not reported, one whose time has passed loses exactly its unused prefix's pins; by releases alone, changing nothing if there is none |
| MetadataManagers.MetadataManager.SplitRoute | src/edge_go/metamanager.go:197-222 | separates the leading unused segments from the undelivered ones after the first delivered one |
| PriorityQueues.RootIsLeast | src/edge_go/priorityqueue.go:49-51 | in heap order the root is no larger than any key |
| PriorityQueues.PriorityQueue.Swap | src/edge_go/priorityqueue.go:26-30 | exchanges two items and keeps every item's own index right |
| PriorityQueues.PriorityQueue.Top | src/edge_go/priorityqueue.go:49-51 | an item of least priority |
| PriorityQueues.PriorityQueue.HeapPush | src/edge_go/priorityqueue.go:32-37 | adds one item, keeps heap order and indices, and changes the root only for a strictly smaller priority |
| PriorityQueues.PriorityQueue.CutOff | src/edge_go/priorityqueue.go:39-47 | removes the last item and marks it as gone |
| PriorityQueues.PriorityQueue.HeapPop | src/edge_go/priorityqueue.go:39-47 | returns the former root and keeps the others, in heap order with right indices |
| PriorityQueues.PriorityQueue.Update | src/edge_go/priorityqueue.go:54-58 | changes one item's value and priority and restores heap order over the same items |
| TokenProtocol.StepInv | src/edge_go/metamanager.go:322-342 | every enabled step of either side, pushes during processing included, keeps tokens, heap, mutex and history in agreement and reads no empty heap |
| TokenProtocol.TokensMatchHeap | src/edge_go/metamanager.go:322-342 | so does every run |
| TokenProtocol.PoppedWhenDue | src/edge_go/metamanager.go:322-342 | nothing is popped before the observed time even if a push lands in between; the popped job is the one seen if and only if no earlier one was pushed |
| TokenProtocol.GivesBackExactly | src/edge_go/metamanager.go:322-338 | in every reachable state the consumer gives its token back if and only if none of the queued jobs is due |
| TokenProtocol.JobsConserved | src/edge_go/metamanager.go:322-342 | over every run pushed jobs are the popped and the queued ones, and they are those processed, in work and queued if and only if no look was undercut |
| TokenProtocol.UndercutLosesJob | src/edge_go/metamanager.go:322-342 | for any two jobs there is a run that processes the later one twice and the earlier one never |
| TokenProtocol.StuckForever | src/edge_go/metamanager.go:322-334 | a consumer that gives a token back to a full channel is stuck in every continuation |
| TokenProtocol.StuckExactly | src/edge_go/metamanager.go:322-334 | in every reachable state a consumer giving its token back is stuck if and only if more jobs are queued than the channel and a pending send hold |
| TokenProtocol.HaltedExactly | src/edge_go/metamanager.go:322-342 | in every reachable state the consumer takes no further step in any continuation if and only if it is so stuck, or has looked while the producer holds the mutex with the channel full |
| TokenProtocol.ChannelCanStick | src/edge_go/metamanager.go:501-504 | for every capacity some run gets stuck in giving a token back |
| TokenProtocol.ChannelCanBar | src/edge_go/metamanager.go:501-504 | and some other run with the consumer waiting for the mutex |
| DownloadLedger.LedgerIsCounter | src/cloud/EdgeDownloadAssignment.py:36-67 | over any calls the ledger accepts what one counter accepts, and its maximum is that counter |
| DownloadLedger.PruningIrrelevant | src/cloud/EdgeDownloadAssignment.py:51-57 | timestamps, and with them pruning, change no decision |
| DownloadLedger.LedgerRun | src/cloud/EdgeDownloadAssignment.py:36-67 | from the start: maximum is total link time accepted, downloads are back to back, each before its arrival, each stored completion its own |
| DownloadLedger.AddStores | src/cloud/EdgeDownloadAssignment.py:50-64 | stored afterwards are the downloads not complete by the timestamp and, if in time, the candidate with its completion; the others count as downloaded |
| DownloadLedger.CheckCoversCommit | src/cloud/EdgeDownloadAssignment.py:36-87 | a prefix that consecutive calls of add accept is a prefix of what the check returns |
| DownloadLedger.CheckEqualsCommitExactly | src/cloud/EdgeDownloadAssignment.py:36-87 | of what the check returns for a visit, add accepts a committed prefix whole if and only if it is empty or its last download, started from the running maximum, is in time |
| DownloadLedger.CheckSafeOnExactly | src/cloud/EdgeDownloadAssignment.py:69-87 | on links of given speeds add accepts all the check returns if and only if no offer's link time falls between the two starts and the deadline |
| DownloadLedger.CheckSafeOnOneSource | src/cloud/EdgeDownloadAssignment.py:69-87 | with one source, if and only if the least size that is late for add is late for the check too |
| DownloadLedger.CheckSafeExactly | src/cloud/EdgeDownloadAssignment.py:69-87 | for all links and offers, if and only if the check starts from the running maximum or not before the deadline |
| DownloadLedger.DriftHappens | src/cloud/EdgeDownloadAssignment.py:69-87 | two requests on a new ledger after which the check returns what add refuses |
| DownloadLedger.PossibleCount | src/cloud/EdgeDownloadAssignment.py:78-85 | the prefix meets every arrival from its start time and one candidate more would not |
| DownloadLedger.PossibleExactly | src/cloud/EdgeDownloadAssignment.py:69-87 | a candidate is returned if and only if all up to it are in time when started from the latest stored completion before the deadline, or zero |
| DownloadLedger.EdgeDownloadAssignment.Prune | src/cloud/EdgeDownloadAssignment.py:51-57 | moves exactly the stale assignments aside and yields the latest completion |
| DownloadLedger.EdgeDownloadAssignment.AddCandidate | src/cloud/EdgeDownloadAssignment.py:36-67 | decision and new state are those of the specification |
| DownloadLedger.EdgeDownloadAssignment.IsDownloadPossible | src/cloud/EdgeDownloadAssignment.py:69-87 | returns exactly those candidates behind the downloads stored as complete before the deadline, and changes nothing |
| BandwidthEstimate.BisectLeft | src/cloud/DownloadManager.py:166-179 | splits the distances into those below and those not below |
| BandwidthEstimate.GetModelDist | src/cloud/DownloadManager.py:166-179 | a nearest distance, of two as near the smaller |
| BandwidthEstimate.GetDownloadBytes | src/cloud/DownloadManager.py:221-273 | the loop computes the left step sum over points with repeated times dropped, and one final unit |
| BandwidthEstimate.EstimateExactly | src/cloud/DownloadManager.py:221-273 | eight times the estimate is the time from each point to a later next one at the rate of the first point with its time, and one unit at the last rate; rates are those at nearest distances |
| BandwidthEstimate.EstimateWithin | src/cloud/DownloadManager.py:221-273 | for ordered times it lies between slowest and fastest speed times duration plus one, in bytes |
| TrajectoryGrouping.VisitsUnique | src/cloud/CloudMetadataClient.py:18-87 | ordered disjoint visits of alternating nodes that cover every point with a node are determined by the points |
| TrajectoryGrouping.RunsAreRuns | src/cloud/CloudMetadataClient.py:27-48 | the tracked intervals are in order and cover every point with a node |
| TrajectoryGrouping.RunsUnbroken | src/cloud/CloudMetadataClient.py:27-48 | each is a maximal run of points of one node, without gaps |
| TrajectoryGrouping.OfNodesKeeps | src/cloud/CloudMetadataClient.py:35-46 | a node's list holds exactly the runs of that node, in order |
| TrajectoryGrouping.MergeIsVisits | src/cloud/CloudMetadataClient.py:59-68 | merging successive runs of one node over gaps without nodes gives the visits |
| TrajectoryGrouping.SortedIsOrdered | src/cloud/CloudMetadataClient.py:55 | sorting by start puts the intervals of all nodes in one order only |
| TrajectoryGrouping.FindIntervals | src/cloud/CloudMetadataClient.py:27-48 | the dictionary lists, per node, its runs |
| TrajectoryGrouping.MergeRuns | src/cloud/CloudMetadataClient.py:59-68 | the in-place merge is the specified one |
| TrajectoryGrouping.ProcessNearestNodes | src/cloud/CloudMetadataClient.py:18-87 | each visit has the node, the first point's time as arrival, the time to the last point as contact, and all points in between, over the one grouping there is |
| TrajectoryGrouping.GroupedUnique | src/cloud/CloudMetadataClient.py:18-87 | there is one such result only |
| VisitCapacity.OverlapExactly | src/cloud/DownloadManager.py:206-209 | two visits overlap if and only if an instant is strictly inside both; one without duration, if it lies strictly inside the other |
| VisitCapacity.CountIsClashes | src/cloud/DownloadManager.py:200-216 | counting route by route counts each tracked visit that shares an instant with the new one, once |
| VisitCapacity.SharelessKeepsCapacity | src/cloud/DownloadManager.py:200-216 | recording tested visits that share no instant with each other keeps at most the configured number under way at every instant |
| VisitCapacity.CapacityKept | src/cloud/DownloadManager.py:200-216 | so does recording tested visits that do not overlap each other |
| VisitCapacity.CapacityExactly | src/cloud/DownloadManager.py:286-291 | recording tested visits is safe whatever else is tracked if and only if they share no instant |
| VisitCapacity.CapacityOverRuns | src/cloud/DownloadManager.py:286-291 | so it does over any sequence of requests, reused tokens included |
| VisitCapacity.TrackExactly | src/cloud/DownloadManager.py:286-385 | tracked are, for every route, the visits recorded for its last request |
| VisitCapacity.OwnOverlapBreaksCapacity | src/cloud/DownloadManager.py:286-291 | even with nothing else tracked, three visits of one request that share an instant all pass the test and break the bound |
| Planner.DownloadManager.HasOverlap | src/cloud/DownloadManager.py:200-216 | a visit is refused if and only if as many tracked visits as the bound, over all nodes and routes, each share an instant with it |
| Planner.DownloadManager.EffectiveNodes | src/cloud/DownloadManager.py:288-294 | keeps, in order, exactly the visits that fewer tracked ones share an instant with |
| Planner.DownloadManager.TakeTentative | src/cloud/DownloadManager.py:317-343 | the longest run of segments from the index whose size stays within the estimate |
| Planner.DownloadManager.SendAssignments | src/cloud/DownloadManager.py:504-516 | the edge answers a prefix of the offer, and a route with segments at most once; every answer is kept in order |
| Planner.DownloadManager.CommitToLedger | src/cloud/DownloadManager.py:366-375 | the ledger takes what its counter accepts of the committed segments |
| Planner.DownloadManager.PlanVisit | src/cloud/DownloadManager.py:299-382 | one visit: it begins at the index so far or at the whole second of its arrival if that is later; segments that fit, how many the ledger allows, how many the edge took, next index, ledger afterwards |
| Planner.DownloadManager.GetDownloadAssignment | src/cloud/DownloadManager.py:275-404 | every visit is decided in turn and takes exactly what its edge answered; recorded visits get non-empty increasing ranges, none below playback, each within its estimate, one visit a node; every visited node with a model has its list, and capacity is kept |
| Planner.DownloadManager.PlannedSnoc | src/cloud/DownloadManager.py:376-385 | line 384 never overwrites a non-empty assignment, since an edge answers a route once |
| Planner.DownloadManager.Tiling | src/cloud/DownloadManager.py:299-382 | every segment index below the last one reached is assigned, jumped over or dropped, exactly once |
| Planner.NothingDroppedExactly | src/cloud/DownloadManager.py:349-382 | no index is dropped if and only if the ledger finds something possible for every visit with candidates |
| Planner.OfferRepeatsNothing | src/cloud/DownloadManager.py:317-343 | offers are ranges of the video, so with distinct ids no offered, and later listed, segment repeats |
| Planner.NextVisitExactly | src/cloud/DownloadManager.py:523-533 | the position after the first visit to the named node, past the end if there is none |
| Planner.DownloadManager.HandleMissedDelivery | src/cloud/DownloadManager.py:518-559 | forwards to the visit after the named node the longest prefix its ledger accepts, takes its link for exactly that, and gets nothing committed |
| Planner.DownloadManager.constructor | src/cloud/DownloadManager.py:125-150 | one new ledger for each node and no tracked route: the state every request keeps valid |
| ClientModel.BufferGrowth | src/client_go/cvclient/client.go:301-334 | received bytes exceed the growth of the buffer by exactly the bytes received again |
| ClientModel.ConservedExactly | src/client_go/cvclient/client.go:301-363 | every contact counts each byte once if and only if the list repeats no non-empty segment |
| ClientModel.AreaWithin | src/client_go/cvclient/client.go:409-509 | the bits gathered over a contact's ticks telescope to at most the fastest link from first tick to last |
| ClientModel.EarnedWithin | src/client_go/cvclient/client.go:336-376 | what a contact yields stays within its bits, and the buffer grows by it less what is received again |
| ClientModel.EarnedExactly | src/client_go/cvclient/client.go:301-363 | a contact yields, in order, every listed segment it lacks and is handed, up to the first that the contact's bits do not allow with a byte to spare or that the video does not have |
| ClientModel.AllContactsWithinLink | src/client_go/cvclient/client.go:386-519 | all contacts together yield no more than the fastest link from the first start on |
| Clients.Trajectory.Advance | src/client_go/cvclient/trajectory.go:28-43 | moves one point on, and answers true exactly when there is one and its time is later |
| Clients.Client.constructor | src/client_go/cvclient/client.go:82-107 | a new client has received nothing and is in no contact |
| Clients.Client.PretendDownload | src/client_go/cvclient/client.go:301-334 | takes segments in order while they are smaller than what is left, skipping those not handed over, and stops at an unknown one |
| Clients.Client.MakeEdgeRequest | src/client_go/cvclient/client.go:336-376 | buffers all that the contact's bits allow of what the node lists and hands over, keeps byte conservation up to what is received again, and records the contact |
| Clients.Client.CloudFill | src/client_go/cvclient/client.go:430-459 | fills exactly up to one second ahead of playback or to the end of the video, each url's file buffered, or stops at an unknown file |
| Clients.Client.NewContact | src/client_go/cvclient/client.go:462-472 | a new contact starts at this tick with no bits |
| Clients.Client.LoseContact | src/client_go/cvclient/client.go:417-429 | the contact ends with a last stretch at the last known bandwidth |
| Clients.Client.ChangeContact | src/client_go/cvclient/client.go:473-492 | the old contact ends with a last stretch at the new node's bandwidth and a new one begins |
| Clients.Client.ContinueContact | src/client_go/cvclient/client.go:492-509 | the stretch since the last tick counts at the present bandwidth |
| Clients.Client.InReachExactly | src/client_go/cvclient/client.go:397-413 | there is contact with the nearest node within 40 metres, up to the truncation time if one is set, at that node's speed |
| Clients.Client.EndedExactly | src/client_go/cvclient/client.go:388-492 | a contact ends when its node is not in reach any more, with a last stretch at the speed of the node reached now, else of the last one at its last distance (at the trajectory's end with none), and yields all its bits allow |
| Clients.Client.FetchSegments | src/client_go/cvclient/client.go:386-519 | one tick keeps received bytes equal to buffered ones plus those received again (none if no segment is listed twice) and the contact bound, ends at most one contact with the samples of the whole contact, advances playback exactly when time did, and panics exactly for a segment the video does not have, in the contact or else in the cloud fill |
| Clients.Client.EdgeBytesWithinLink | src/client_go/cvclient/client.go:386-519 | in every reachable state the edge bytes fit the fastest link between the first contact's start and now |
| Clients.Client.Move | src/client_go/cvclient/client.go:535-545 | the trajectory's index goes up by one until its end |
| Clients.Client.Turn | src/clientrunner_go/main.go:189-198 | the runner's inner loop ends; it stops at the first point later than the one before or at the trajectory's end, and playback advances at most once |

## Left out

- gRPC, HTTP, redis, CSV, JSON, logging, configuration and results: plumbing.
- The channel and its mutex are modelled as interleaved steps in `TokenProtocol`, where a look, a push and a pop are one step each: the data race of a look during a push is not modelled. The classes themselves are sequential, so neither are races on the pending counter. The shutdown path and its sentinel request are not modelled.
- Go's `container/heap` is written out as sift-up and sift-down; its source is not part of this model. `TokenProtocol` sees the heap through those contracts.
- Integer widths: sizes are naturals and sums are unbounded, so overflow and negative sizes are not modelled.
- Floating point: times, speeds and bandwidths are reals in the cloud, so rounding of floats is not modelled.
- Under a policy name other than LRU and LFU a released segment is never listed; only the two named policies are modelled.
- Event timestamps, the index of the eviction log, the accept counter and the request counter do not affect any decision and are not modelled.
- Segment metadata are values; that `HasSegment` hands out a pointer into the map, and slice aliasing in `insert`, are not captured.
- Link state tracking: only whether a source is known is kept of it, which is all that admission reacts to; the download times are not modelled.
- `canMakeContact` always returns true, and the content server's listing of a route's segments is an input of the client.
- Transfers between edges: which segments arrive is a parameter of `ProcessRequest`.
- The cloud's choice of a source is any source the ledger has a positive speed for; eviction tracking in `Oracle`, `updateDownloadSources`, `addSegmentForDownload` and `removeCompletedSegment` are not modelled.
- The list that the planner appends accepted candidates to is replaced at line 384 of `DownloadManager.py`, so only its replacement is built.
- The branch of `add` for a maximum of `None` cannot be reached, since the constructor stores 0.
- `candidate.expected_dlc_time` is kept with the stored entry, not in a shared candidate object.
- The sorted list of a model's distances is a constant of the planner, required to be the model's keys in order.
- Nearest nodes, distances and link speeds are functions of the client; geometry and file loading are not modelled.
- The client's log lists and utility records do not affect its state and are not modelled; `getFilepath` is an abstract function, and registration takes the reply's urls as a parameter.
- A panic of the client ends its run: the methods report it and leave a consistent state, which the run does not use.
- Clients.Client.FetchSegments: requires timestamps that do not go back, as the runner's clock gives.
- CacheRuns.RunInv: requires one size per id over the run, as videos have; `CacheModel.AddSegmentInvExactly` says what happens otherwise.
- The older Python edge and Python client are superseded and not modelled.
