/** The edge's metadata manager: admission, delayed downloads, accounting, and the overdue sweep, on its fields. */
module MetadataManagers {
  import opened Collections
  import opened CacheModel
  import opened CacheRuns
  import opened EdgeModel
  import opened EdgeSteps
  import opened SegmentCaches
  import opened PriorityQueues

  /** Go's math.Round: to the nearest integer, halves away from zero. */
  function Round(x: real): int {
    if x >= 0.0 then (x + 0.5).Floor else -((-x + 0.5).Floor)
  }

  /** The part of the time left for which a download is put off. */
  function Scaled(left: int, proportion: real): real {
    left as real * proportion
  }

  /** When the download of a request is due. */
  function Priority(now: int, arrival: int, proportion: real): int {
    now + Round(Scaled(arrival - now, proportion))
  }

  function Clamp(p: real): real {
    if p < 0.0 then 0.0 else if p > 1.0 then 1.0 else p
  }

  lemma Share(d: real, p: real)
    requires 0.0 <= p <= 1.0 && d >= 0.0
    ensures 0.0 <= d * p <= d
  {
    assert d * (1.0 - p) >= 0.0;
  }

  lemma ScaledWindow(n: int, p: real)
    requires 0.0 <= p <= 1.0
    ensures n >= 0 ==> 0.0 <= Scaled(n, p) <= n as real
    ensures n <= 0 ==> n as real <= Scaled(n, p) <= 0.0
    ensures p == 0.0 ==> Scaled(n, p) == 0.0
    ensures p == 1.0 ==> Scaled(n, p) == n as real
  {
    var d := n as real;
    if n >= 0 {
      Share(d, p);
    } else {
      Share(-d, p);
      assert d * p == -((-d) * p);
    }
  }

  lemma RoundWindow(x: real, n: int)
    requires n >= 0 ==> 0.0 <= x <= n as real
    requires n < 0 ==> n as real <= x <= 0.0
    ensures n >= 0 ==> 0 <= Round(x) <= n
    ensures n <= 0 ==> n <= Round(x) <= 0
    ensures x == n as real ==> Round(x) == n
    ensures x == 0.0 ==> Round(x) == 0
  {
  }

  /** A download is never due before the request nor after the arrival it serves, and waits for neither at the ends. */
  lemma {:induction false} PriorityInWindow(now: int, arrival: int, proportion: real)
    requires 0.0 <= proportion <= 1.0
    ensures now <= arrival ==> now <= Priority(now, arrival, proportion) <= arrival
    ensures arrival <= now ==> arrival <= Priority(now, arrival, proportion) <= now
    ensures proportion == 0.0 ==> Priority(now, arrival, proportion) == now
    ensures proportion == 1.0 ==> Priority(now, arrival, proportion) == arrival
  {
    ScaledWindow(arrival - now, proportion);
    RoundWindow(Scaled(arrival - now, proportion), arrival - now);
  }

  /** The wait is the proportional share of the time left, to the nearest unit, halves away from zero. */
  lemma PriorityExactly(now: int, arrival: int, proportion: real)
    ensures var share, wait := (arrival - now) as real * proportion, Priority(now, arrival, proportion) - now;
            && (share >= 0.0 ==> wait as real - 0.5 <= share < wait as real + 0.5)
            && (share < 0.0 ==> wait as real - 0.5 < share <= wait as real + 0.5)
  {
    RoundNearest(Scaled(arrival - now, proportion));
  }

  lemma RoundNearest(x: real)
    ensures x >= 0.0 ==> Round(x) as real - 0.5 <= x < Round(x) as real + 0.5
    ensures x < 0.0 ==> Round(x) as real - 0.5 < x <= Round(x) as real + 0.5
  {
  }

  class MetadataManager {
    const cache: SegmentCache
    const downloadRequests: PriorityQueue<Request>
    const knownSources: set<string>
    const procastinationProportion: real
    var evicted: seq<string>
    var routes: map<int, Request>
    var pendingDlSize: int
    var receivedReqCtr: nat
    var dlHistory: seq<HistoryRecord>
    var localBytes: nat
    var edgeBytes: nat
    var cloudBytes: nat

    ghost predicate Valid()
      reads this, cache, downloadRequests, downloadRequests.items
    {
      ListInv(cache.Abs()) && downloadRequests.Valid()
    }

    constructor (size: nat, policy: Policy, knownSources: set<string>, proportion: real)
      ensures Valid() && cache.Abs() == Empty(policy, size) && routes == map[] && pendingDlSize == 0
      ensures this.knownSources == knownSources && 0.0 <= procastinationProportion <= 1.0
      ensures procastinationProportion == proportion
              || (proportion < 0.0 && procastinationProportion == 0.0)
              || (proportion > 1.0 && procastinationProportion == 1.0)
      ensures evicted == [] && dlHistory == [] && downloadRequests.items == []
      ensures receivedReqCtr == localBytes == edgeBytes == cloudBytes == 0
      ensures fresh(cache) && fresh(downloadRequests)
    {
      cache := new SegmentCache(size, policy);
      downloadRequests := new PriorityQueue();
      this.knownSources := knownSources;
      procastinationProportion := Clamp(proportion);
      evicted, routes, dlHistory := [], map[], [];
      pendingDlSize, receivedReqCtr := 0, 0;
      localBytes, edgeBytes, cloudBytes := 0, 0, 0;
    }

    method CanAddSegments(request: Request) returns (committed: seq<string>)
      modifies this`pendingDlSize
      ensures committed == Ids(Committed(cache.Abs(), old(pendingDlSize), knownSources, request))
      ensures pendingDlSize == PendingAfter(cache.Abs(), old(pendingDlSize), knownSources, [request])
      ensures LongestGrant(cache.Abs(), old(pendingDlSize), knownSources, request, |committed|)
      ensures |committed| <= |request.segments| && committed == Ids(request.segments[..|committed|])
      ensures var taken := request.segments[..|committed|];
              pendingDlSize == old(pendingDlSize) + BytesAt(taken, Absent(cache.Abs(), taken))
    {
      hide PendingAfter, SourceOf, CommitCount, Admissible, FreeSpace, LongestGrant, BytesAt, Absent;
      ghost var c := cache.Abs();
      ghost var segs := request.segments;
      var availableSpace := cache.GetAvailableFreeSpace();
      availableSpace := availableSpace - pendingDlSize;
      ghost var available := availableSpace;
      var possibleAdditions: int := 0;
      committed := [];
      var i := 0;
      while i < |request.segments|
        invariant i <= |segs|
        invariant possibleAdditions == TotalSize(segs[..i]) && availableSpace == available - TotalSize(segs[..i])
        invariant committed == Ids(segs[..i])
        invariant pendingDlSize == old(pendingDlSize) + MissingSize(c, segs[..i])
        invariant CommitCount(c, knownSources, request, available, 0)
            == CommitCount(c, knownSources, request, available, i)
      {
        var segment := request.segments[i];
        CommitStep(c, knownSources, request, available, i);
        if segment.segmentSize + possibleAdditions > availableSpace {
          break;
        }
        var isSegmentLocal := cache.HasSegment(segment.segmentId);
        if !isSegmentLocal && SourceOf(request, segment.segmentId) !in knownSources {
          break;
        }
        assert segs[..i + 1][..i] == segs[..i];
        if !isSegmentLocal {
          pendingDlSize := pendingDlSize + segment.segmentSize;
        }
        committed := committed + [segment.segmentId];
        possibleAdditions := possibleAdditions + segment.segmentSize;
        availableSpace := availableSpace - segment.segmentSize;
        i := i + 1;
      }
      CommitEnd(c, knownSources, request, available);
      PendingAfterOne(c, old(pendingDlSize), knownSources, request);
      MissingExactly(c, segs[..i]);
      CommittedExactly(c, old(pendingDlSize), knownSources, request);
    }

    method AddSegments(segments: seq<Segment>, routeId: int) returns (committed: seq<string>)
      requires ListInv(cache.Abs())
      modifies this`evicted, this`pendingDlSize, cache
      ensures ListInv(cache.Abs())
      ensures var b := Batched(old(cache.Abs()), segments, routeId);
              && cache.Abs() == b.cache && committed == b.committed
              && evicted == old(evicted) + b.evicted
              && pendingDlSize == Settled(old(pendingDlSize), b.missing)
    {
      var committedSize;
      committed, committedSize := AddEach(segments, routeId);
      if pendingDlSize > 0 {
        pendingDlSize := pendingDlSize - committedSize;
      }
    }

    /** The loop of AddSegments. */
    method AddEach(segments: seq<Segment>, routeId: int) returns (committed: seq<string>, committedSize: nat)
      requires ListInv(cache.Abs())
      modifies this`evicted, cache
      ensures var b := Batched(old(cache.Abs()), segments, routeId);
              && cache.Abs() == b.cache && committed == b.committed
              && evicted == old(evicted) + b.evicted && committedSize == b.missing
    {
      hide BatchStep;
      ghost var c := cache.Abs();
      ghost var b := Batched(c, [], routeId);
      committed, committedSize := [], 0;
      for i := 0 to |segments|
        invariant b == Batched(c, segments[..i], routeId)
        invariant cache.Abs() == b.cache && committed == b.committed
        invariant evicted == old(evicted) + b.evicted && committedSize == b.missing
      {
        assert segments[..i + 1][..i] == segments[..i];
        var added, missing := AddOne(segments[i], routeId, b);
        b := BatchStep(b, segments[i], routeId);
        committed := committed + added;
        committedSize := committedSize + missing;
      }
      assert segments[..|segments|] == segments;
    }

    /** The loop body of AddSegments: an error only skips the segment. */
    method AddOne(segment: Segment, routeId: int, ghost b: Batch) returns (added: seq<string>, missing: nat)
      requires ListInv(b.cache) && b.cache == cache.Abs()
      modifies this`evicted, cache
      ensures var d := BatchStep(b, segment, routeId);
              && cache.Abs() == d.cache && d.committed == b.committed + added
              && old(evicted) <= evicted && d.evicted == b.evicted + evicted[|old(evicted)|..]
              && d.missing == b.missing + missing
    {
      var isSegmentLocal := cache.HasSegment(segment.segmentId);
      missing := if isSegmentLocal then 0 else segment.segmentSize;
      var result := cache.AddSegment(segment, routeId);
      if result.None? {
        return [], missing;
      }
      added := [segment.segmentId];
      evicted := evicted + result.value;
    }

    /** One turn of handleAddRoute: admit a new route, queue the download, answer the cloud. */
    method HandleAddRoute(request: Request, now: int) returns (reply: Reply)
      requires Valid()
      modifies this, downloadRequests, downloadRequests.items`index
      ensures Valid() && cache.Abs() == old(cache.Abs())
      ensures reply.tokenId == request.tokenId && reply.evictedIds == [] && evicted == []
      ensures receivedReqCtr == old(receivedReqCtr) + if request.tokenId in old(routes) then 0 else 1
      ensures reply.segmentIds ==
              if request.tokenId in old(routes) then []
              else Ids(Committed(cache.Abs(), old(pendingDlSize), knownSources, request))
      ensures EdgeReply(Ids(request.segments), request.tokenId in old(routes), reply.segmentIds)
      ensures routes == if request.tokenId in old(routes) then old(routes) else old(routes)[request.tokenId := request]
      ensures pendingDlSize == if request.tokenId in old(routes) then old(pendingDlSize)
                               else PendingAfter(cache.Abs(), old(pendingDlSize), knownSources, [request])
      ensures exists x: Item<Request> :: fresh(x)
                && multiset(downloadRequests.items) == multiset(old(downloadRequests.items)) + multiset{x}
                && x.value == request && x.priority == Priority(now, request.arrivalTime, procastinationProportion)
    {
      hide ListInv, CommitCount, MissingSize, HeapOrdered, FreeSpace, PendingAfter, Round;
      evicted := [];
      var committed := [];
      if request.tokenId !in routes {
        routes := routes[request.tokenId := request];
        committed := CanAddSegments(request);
        receivedReqCtr := receivedReqCtr + 1;
      }
      reply := Reply(request.tokenId, committed, evicted);
      ghost var x := QueueDownload(request, now);
      assert fresh(x);
      evicted := [];
    }

    /** Queues the download of the whole request, due in proportion to the time left. */
    method QueueDownload(request: Request, now: int) returns (ghost x: Item<Request>)
      requires downloadRequests.Valid()
      modifies downloadRequests, downloadRequests.items`index
      ensures downloadRequests.Valid() && fresh(x)
      ensures multiset(downloadRequests.items) == multiset(old(downloadRequests.items)) + multiset{x}
      ensures x.value == request && x.priority == Priority(now, request.arrivalTime, procastinationProportion)
    {
      var item := new Item(request, Priority(now, request.arrivalTime, procastinationProportion));
      downloadRequests.HeapPush(item);
      x := item;
    }

    /**
      The per-request body of processDownloads. `clock` is read at each
      segment's turn, `fetched` is what other edges deliver.
     */
    method ProcessRequest(request: Request, clock: nat -> int, fetched: set<nat>)
      requires ListInv(cache.Abs())
      modifies this, cache
      ensures ListInv(cache.Abs())
      ensures var c, segs, route := old(cache.Abs()), request.segments, request.tokenId;
              var tried := Attempted(c, segs, route);
              && cache.Abs() == AfterAdds(c, tried, route)
              && pendingDlSize == SettledEach(c, old(pendingDlSize), tried, route)
              && dlHistory == old(dlHistory) + History(c, request, clock, |tried|)
      ensures var c, segs := old(cache.Abs()), request.segments;
              var n := |Attempted(c, segs, request.tokenId)|;
              var a := Accounted(segs, LocalIds(c, segs, request.tokenId, n), EdgeIdxs(c, request, n) * fetched);
              && localBytes == old(localBytes) + a.local
              && edgeBytes == old(edgeBytes) + a.edge
              && cloudBytes == old(cloudBytes) + a.cloud
      ensures var c, segs := old(cache.Abs()), request.segments;
              var n := |Attempted(c, segs, request.tokenId)|;
              var cached, edge := FromCache(c, request, n), FromEdge(c, request, n, fetched);
              && localBytes == old(localBytes) + BytesAt(segs, cached)
              && edgeBytes == old(edgeBytes) + BytesAt(segs, edge)
              && cloudBytes == old(cloudBytes) + BytesAt(segs, set i: nat | i < |segs| && i !in cached && i !in edge)
      ensures var n := |Attempted(old(cache.Abs()), request.segments, request.tokenId)|;
              && old(dlHistory) <= dlHistory
              && Keeps(dlHistory[|old(dlHistory)|..], Records(request, clock, n),
                       set i: nat | i < n && !FoundAt(old(cache.Abs()), request.segments, request.tokenId, i))
      ensures routes == old(routes) && receivedReqCtr == old(receivedReqCtr)
    {
      hide Accounted, LocalIds, EdgeIdxs, FromCache, FromEdge, BytesAt, Keeps, Records, History, ListInv, AfterAdds,
          SettledEach, FoundAt;
      ghost var c := cache.Abs();
      ghost var n := |Attempted(c, request.segments, request.tokenId)|;
      OriginsExactly(c, request, n, fetched);
      HistoryExactly(c, request, clock, n);
      var localSegments, fromEdge := AddUntilRefused(request, clock);
      assert dlHistory[|old(dlHistory)|..] == History(c, request, clock, n);
      AccountBytes(request.segments, localSegments, fromEdge * fetched);
    }

    method AddUntilRefused(request: Request, clock: nat -> int) returns (localSegments: set<string>, fromEdge: set<nat>)
      requires ListInv(cache.Abs())
      modifies this`evicted, this`pendingDlSize, this`dlHistory, cache
      ensures ListInv(cache.Abs())
      ensures var c, segs, route := old(cache.Abs()), request.segments, request.tokenId;
              var tried := Attempted(c, segs, route);
              && cache.Abs() == AfterAdds(c, tried, route)
              && pendingDlSize == SettledEach(c, old(pendingDlSize), tried, route)
              && dlHistory == old(dlHistory) + History(c, request, clock, |tried|)
              && localSegments == LocalIds(c, segs, route, |tried|)
              && fromEdge == EdgeIdxs(c, request, |tried|)
    {
      hide Step, Accepts, ListInv, Batched, SettledEach, LocalIds, EdgeIdxs, History, AfterAdds, AcceptedCount,
          SourceOf, FoundAt;
      ghost var c := cache.Abs();
      var segs, route := request.segments, request.tokenId;
      localSegments, fromEdge := {}, {};
      var idx: nat := 0;
      var refused := false;
      ProcessStart(c, pendingDlSize, request, clock);
      while idx < |segs| && !refused
        invariant idx <= |segs|
        invariant cache.Abs() == AfterAdds(c, segs[..idx], route)
        invariant pendingDlSize == SettledEach(c, old(pendingDlSize), segs[..idx], route)
        invariant dlHistory == old(dlHistory) + History(c, request, clock, idx)
        invariant localSegments == LocalIds(c, segs, route, idx)
        invariant fromEdge == EdgeIdxs(c, request, idx)
        invariant AcceptedCount(c, segs, route, 0) == if refused then idx - 1 else AcceptedCount(c, segs, route, idx)
        decreases |segs| - idx
      {
        var segment := segs[idx];
        ProcessStep(c, old(pendingDlSize), request, idx);
        FoundStep(c, request, clock, idx);
        SingleBatch(cache.Abs(), segment, route);
        var isSegmentLocal := cache.HasSegment(segment.segmentId);
        if isSegmentLocal {
          localSegments := localSegments + {segment.segmentId};
        } else {
          if SourceOf(request, segment.segmentId) != CDNSRC {
            fromEdge := fromEdge + {idx};
          }
          dlHistory := dlHistory + [HistoryRecord(segment.segmentId, clock(idx), route, segment.segmentSize)];
        }
        var added := AddSegments([segment], route);
        refused := |added| == 0;
        idx := idx + 1;
      }
      assert segs[..|segs|] == segs;
    }

    method AccountBytes(segs: seq<Segment>, localSegments: set<string>, fromEdge: set<nat>)
      modifies this`localBytes, this`edgeBytes, this`cloudBytes
      ensures var a := Accounted(segs, localSegments, fromEdge);
              && localBytes == old(localBytes) + a.local
              && edgeBytes == old(edgeBytes) + a.edge
              && cloudBytes == old(cloudBytes) + a.cloud
    {
      for idx := 0 to |segs|
        invariant var a := Accounted(segs[..idx], localSegments, fromEdge);
                  && localBytes == old(localBytes) + a.local
                  && edgeBytes == old(edgeBytes) + a.edge
                  && cloudBytes == old(cloudBytes) + a.cloud
      {
        assert segs[..idx + 1][..idx] == segs[..idx];
        if segs[idx].segmentId in localSegments {
          localBytes := localBytes + segs[idx].segmentSize;
        } else if idx in fromEdge {
          edgeBytes := edgeBytes + segs[idx].segmentSize;
        } else {
          cloudBytes := cloudBytes + segs[idx].segmentSize;
        }
      }
      assert segs[..|segs|] == segs;
    }

    /** The sweep of overdue routes, in whatever order the map yields them. */
    method GetOverdueSegments(now: int, threshold: int) returns (undelivered: map<int, seq<Segment>>)
      requires ListInv(cache.Abs())
      modifies cache
      ensures ListInv(cache.Abs())
      ensures undelivered == Report(old(cache.Abs()), routes, now, threshold)
      ensures Swept(old(cache.Abs()), cache.Abs(), routes, now, threshold)
      ensures forall r :: r in routes ==>
                SweptInTime(old(cache.Abs()), cache.Abs(), undelivered, r, routes[r], now, threshold)
      ensures forall r :: r !in routes ==>
                r !in undelivered && forall id :: Pinned(cache.Abs(), id, r) <==> Pinned(old(cache.Abs()), id, r)
    {
      hide Report, Swept, Overdue, Undelivered, Unused, ListInv, SweptInTime, Pinned;
      ghost var c := cache.Abs();
      ghost var all, done := routes, map[];
      undelivered := map[];
      var todo := routes.Keys;
      SweepNone(c, now, threshold);
      while todo != {}
        invariant ListInv(cache.Abs()) && todo <= all.Keys && done == all - todo
        invariant undelivered == Report(c, done, now, threshold)
        invariant Swept(c, cache.Abs(), done, now, threshold)
        decreases |todo|
      {
        var routeId := AnyOf(todo);
        var request := routes[routeId];
        Seen(all, todo, routeId);
        undelivered := SweepNext(routeId, request, now, threshold, undelivered, c, done);
        todo, done := todo - {routeId}, done[routeId := request];
      }
      assert done == all;
      forall r {
        SweepExactly(c, cache.Abs(), all, now, threshold, r);
      }
    }

    /** One more route, overdue or not; what was swept before is ghost. */
    method SweepNext(routeId: int, request: Request, now: int, threshold: int, before: map<int, seq<Segment>>,
                     ghost c: Cache, ghost done: map<int, Request>) returns (after: map<int, seq<Segment>>)
      requires ListInv(cache.Abs()) && ListInv(c) && routeId !in done
      requires before == Report(c, done, now, threshold) && Swept(c, cache.Abs(), done, now, threshold)
      modifies cache
      ensures ListInv(cache.Abs())
      ensures after == Report(c, done[routeId := request], now, threshold)
      ensures Swept(c, cache.Abs(), done[routeId := request], now, threshold)
    {
      hide Report, Swept, Overdue, Undelivered, Unused, ListInv;
      after := before;
      ReportOne(c, done, routeId, request, now, threshold);
      if Overdue(request, now, threshold) {
        SweepOne(c, cache.Abs(), done, routeId, request, now, threshold);
        var missed := SweepRoute(request.segments, routeId);
        if missed != [] {
          after := after[routeId := missed];
        }
      } else {
        SweepSkip(c, cache.Abs(), done, routeId, request, now, threshold);
      }
    }

    /** One overdue route: split its segments, then release the unused ones. */
    method SweepRoute(segs: seq<Segment>, routeId: int) returns (missed: seq<Segment>)
      requires ListInv(cache.Abs())
      modifies cache
      ensures ListInv(cache.Abs())
      ensures missed == Undelivered(old(cache.Abs()), segs, routeId)
      ensures cache.Abs() == ReleaseAll(old(cache.Abs()), Unused(old(cache.Abs()), segs, routeId), routeId)
    {
      ghost var c := cache.Abs();
      var unused;
      unused, missed := SplitRoute(segs, routeId);
      for i := 0 to |unused|
        invariant ListInv(cache.Abs()) && cache.Abs() == ReleaseAll(c, unused[..i], routeId)
      {
        assert unused[..i + 1][..i] == unused[..i];
        cache.UpdateSegmentStatus(unused[i], routeId);
      }
      assert unused[..|unused|] == unused;
    }

    /** The leading segments not delivered, and those not delivered after the first delivered one. */
    method SplitRoute(segs: seq<Segment>, routeId: int) returns (unused: seq<string>, missed: seq<Segment>)
      ensures unused == Unused(cache.Abs(), segs, routeId)
      ensures missed == Undelivered(cache.Abs(), segs, routeId)
    {
      hide Pinned, UnusedCount, StillPinned, Ids;
      ghost var c := cache.Abs();
      ghost var n := UnusedCount(c, segs, routeId);
      var anyUsed := false;
      unused, missed := [], [];
      SplitStart(c, segs, routeId);
      for i := 0 to |segs|
        invariant anyUsed <==> i > n
        invariant unused == Ids(segs[..if i <= n then i else n])
        invariant missed == StillPinned(c, segs[n..if i <= n then n else i], routeId)
      {
        var delivered := cache.DeliveredSegment(segs[i].segmentId, routeId);
        SplitStep(c, segs, routeId, i);
        if !anyUsed {
          if delivered {
            anyUsed := true;
          } else {
            unused := unused + [segs[i].segmentId];
          }
        } else if !delivered {
          missed := missed + [segs[i]];
        }
      }
      SplitEnd(c, segs, routeId);
    }
  }

  lemma SplitStart(c: Cache, segs: seq<Segment>, route: int)
    ensures Ids(segs[..0]) == []
    ensures var n := UnusedCount(c, segs, route); StillPinned(c, segs[n..n], route) == []
  {
  }

  /** What the i-th segment adds to the leading unused ones, or to those still pinned. */
  lemma SplitStep(c: Cache, segs: seq<Segment>, route: int, i: nat)
    requires i < |segs|
    ensures var n := UnusedCount(c, segs, route);
            && Ids(segs[..i + 1]) == Ids(segs[..i]) + [segs[i].segmentId]
            && (i < n ==> Pinned(c, segs[i].segmentId, route))
            && (i == n ==> !Pinned(c, segs[i].segmentId, route) && StillPinned(c, segs[n..n + 1], route) == [])
            && (i >= n ==> StillPinned(c, segs[n..i + 1], route)
                           == StillPinned(c, segs[n..i], route)
                              + if Pinned(c, segs[i].segmentId, route) then [segs[i]] else [])
  {
    var n := UnusedCount(c, segs, route);
    if n <= i {
      LateSnoc(c, segs, route, n, i);
    }
    hide StillPinned, UnusedCount;
    if n == i {
      SplitStart(c, segs, route);
    }
  }

  lemma SplitEnd(c: Cache, segs: seq<Segment>, route: int)
    ensures var n := UnusedCount(c, segs, route);
            && segs[n..|segs|] == segs[n..]
            && (n == |segs| ==> segs[n..n] == segs[n..])
  {
  }
}
