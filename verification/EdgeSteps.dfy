/** What an edge does with an admitted request: add its segments, settle the pending counter, sweep overdue routes. */
module EdgeSteps {
  import opened Collections
  import opened CacheModel
  import opened CacheRuns
  import opened EdgeModel

  // ----- addSegments -----

  function AfterAdds(c: Cache, segs: seq<Segment>, route: int): (d: Cache)
    requires ListInv(c)
    ensures ListInv(d)
  {
    Run(c, Adds(segs, route))
  }

  /** What a batch of additions has done so far. `missing` counts absent segments, refused or not. */
  datatype Batch = Batch(cache: Cache, committed: seq<string>, evicted: seq<string>, missing: nat)

  function BatchStep(b: Batch, seg: Segment, route: int): Batch
    requires ListInv(b.cache)
  {
    var accepted := Accepts(b.cache, seg.segmentSize);
    Batch(Step(b.cache, Add(seg, route)),
          if accepted then b.committed + [seg.segmentId] else b.committed,
          if accepted then b.evicted + Evicted(b.cache, seg) else b.evicted,
          if seg.segmentId in b.cache.segments then b.missing else b.missing + seg.segmentSize)
  }

  function Batched(c: Cache, segs: seq<Segment>, route: int): (b: Batch)
    requires ListInv(c)
    ensures ListInv(b.cache)
  {
    if segs == [] then Batch(c, [], [], 0)
    else BatchStep(Batched(c, segs[..|segs| - 1], route), segs[|segs| - 1], route)
  }

  /** A batch is a run of additions; what it reports as committed is pinned for the route. */
  lemma {:induction false} BatchIsRun(c: Cache, segs: seq<Segment>, route: int)
    requires ListInv(c)
    ensures Batched(c, segs, route).cache == AfterAdds(c, segs, route)
    ensures forall id :: id in Batched(c, segs, route).committed ==> Pinned(AfterAdds(c, segs, route), id, route)
  {
    if segs != [] {
      var init, last := segs[..|segs| - 1], segs[|segs| - 1];
      BatchIsRun(c, init, route);
      assert Adds(segs, route)[..|segs| - 1] == Adds(init, route);
      var b := Batched(c, init, route);
      forall id | id in Batched(c, segs, route).committed
        ensures Pinned(AfterAdds(c, segs, route), id, route)
      {
        PinStep(b.cache, Add(last, route), id, route);
      }
    }
  }

  /** The ids the log says were evicted, in order. */
  function PoppedIds(es: seq<Event>): seq<string> {
    var n := |es| - 1;
    if n < 0 then [] else PoppedIds(es[..n]) + if es[n].eventType == PopEvent then [es[n].segmentId] else []
  }

  lemma PoppedSnoc(es: seq<Event>, e: Event)
    ensures PoppedIds(es + [e]) == PoppedIds(es) + if e.eventType == PopEvent then [e.segmentId] else []
  {
    assert (es + [e])[..|es|] == es;
  }

  lemma {:induction false} PoppedMore(es: seq<Event>, ids: seq<string>)
    ensures PoppedIds(es + PopEvents(ids)) == PoppedIds(es) + ids
  {
    if ids == [] {
      assert es + PopEvents(ids) == es;
    } else {
      var init, last := ids[..|ids| - 1], Event(ids[|ids| - 1], NO_ROUTE, PopEvent);
      PoppedMore(es, init);
      PoppedSnoc(es + PopEvents(init), last);
      PopEventsSnoc(ids);
      hide PopEvents, PoppedIds;
      assert es + PopEvents(ids) == es + PopEvents(init) + [last];
      assert ids == init + [last.segmentId];
    }
  }

  /** An accepted addition logs the evictions it reports, one that is refused none. */
  lemma AddPops(c: Cache, seg: Segment, route: int)
    requires ListInv(c)
    ensures PoppedIds(AddSegment(c, seg, route).events)
            == PoppedIds(c.events) + if Accepts(c, seg.segmentSize) then Evicted(c, seg) else []
  {
    hide PopN, Victims;
    if Fits(c, seg.segmentSize) {
      var room := PopN(c, Victims(c, seg.segmentSize));
      PopNFrame(c, Victims(c, seg.segmentSize));
      if Accepts(c, seg.segmentSize) {
        var e := Event(seg.segmentId, route, if seg.segmentId in room.segments then TouchEvent else PushEvent);
        assert Touch(room, seg, route).events == c.events + [e];
        PoppedSnoc(c.events, e);
        PoppedMore(c.events + [e], Evicted(c, seg));
      }
    }
  }

  lemma BatchTurn(c: Cache, segs: seq<Segment>, route: int)
    requires ListInv(c) && segs != []
    ensures var n: nat := |segs| - 1;
            var b, d := Batched(c, segs[..n], route), Batched(c, segs, route);
            && d == BatchStep(b, segs[n], route)
            && b.cache == AfterAdds(c, segs[..n], route)
            && (AcceptedTurn(c, Adds(segs, route), n) <==> Accepts(b.cache, segs[n].segmentSize))
            && forall i :: 0 <= i < n ==>
                 (AcceptedTurn(c, Adds(segs, route), i) <==> AcceptedTurn(c, Adds(segs[..n], route), i))
  {
    hide BatchStep, Accepts, ListInv;
    var n: nat := |segs| - 1;
    BatchIsRun(c, segs[..n], route);
    AddsPrefix(segs, route, n);
    forall i: nat | i < n {
      SameTurn(c, Adds(segs, route), n, i);
    }
  }

  ghost function AcceptedTurns(c: Cache, ops: seq<Op>): set<nat>
    requires ListInv(c)
  {
    set i: nat | i < |ops| && AcceptedTurn(c, ops, i)
  }

  lemma TurnsSnoc(c: Cache, segs: seq<Segment>, route: int)
    requires ListInv(c) && segs != []
    ensures var n: nat := |segs| - 1;
            AcceptedTurns(c, Adds(segs, route))
            == AcceptedTurns(c, Adds(segs[..n], route))
               + if Accepts(AfterAdds(c, segs[..n], route), segs[n].segmentSize) then {n} else {}
  {
    hide Accepts, AcceptedTurn, ListInv, AfterAdds;
    BatchTurn(c, segs, route);
  }

  /**
    What a batch answers: the ids accepted at their turn, the evictions that
    the cache logged meanwhile, and the bytes missing at their turn.
   */
  lemma {:induction false} BatchExactly(c: Cache, segs: seq<Segment>, route: int)
    requires ListInv(c)
    ensures var b := Batched(c, segs, route);
            && Keeps(b.committed, Ids(segs), AcceptedTurns(c, Adds(segs, route)))
            && PoppedIds(b.cache.events) == PoppedIds(c.events) + b.evicted
            && b.missing == MissedTo(c, segs, route)
  {
    hide Accepts, ListInv, Keeps, PoppedIds, Evicted, AcceptedTurns, AfterAdds, AddSegment;
    if segs == [] {
      NoTurns(c, route);
    } else {
      var n: nat := |segs| - 1;
      var b, before := Batched(c, segs[..n], route), AcceptedTurns(c, Adds(segs[..n], route));
      BatchExactly(c, segs[..n], route);
      BatchTurn(c, segs, route);
      TurnsSnoc(c, segs, route);
      AddPops(b.cache, segs[n], route);
      KeepsSnoc(b.committed, Ids(segs[..n]), before, segs[n].segmentId);
      IdsSnoc(segs);
      assert before + {} == before;
      hide Ids, Adds;
    }
  }

  lemma IdsSnoc(segs: seq<Segment>)
    requires segs != []
    ensures Ids(segs) == Ids(segs[..|segs| - 1]) + [segs[|segs| - 1].segmentId]
  {
  }

  lemma NoTurns(c: Cache, route: int)
    requires ListInv(c)
    ensures Keeps([], Ids([]), AcceptedTurns(c, Adds([], route)))
  {
    assert AcceptedTurns(c, Adds([], route)) == {};
    KeepsNothing(Ids([]));
  }

  function Settled(pending: int, bytes: nat): int {
    if pending > 0 then pending - bytes else pending
  }

  // ----- processing one queued request: one segment at a time, up to the first refusal -----

  function AcceptedCount(c: Cache, segs: seq<Segment>, route: int, i: nat): (n: nat)
    requires ListInv(c) && i <= |segs|
    ensures i <= n <= |segs|
    ensures forall k :: i <= k < n ==> Accepts(AfterAdds(c, segs[..k], route), segs[k].segmentSize)
    ensures n < |segs| ==> !Accepts(AfterAdds(c, segs[..n], route), segs[n].segmentSize)
    decreases |segs| - i
  {
    if i == |segs| || !Accepts(AfterAdds(c, segs[..i], route), segs[i].segmentSize) then i
    else AcceptedCount(c, segs, route, i + 1)
  }

  /** The accepted segments and the one whose refusal ends the loop. */
  function Attempted(c: Cache, segs: seq<Segment>, route: int): seq<Segment>
    requires ListInv(c)
  {
    var n := AcceptedCount(c, segs, route, 0);
    if n < |segs| then segs[..n + 1] else segs
  }

  /** Segment k is tried exactly when all before it are accepted at their turn. */
  lemma AttemptedExactly(c: Cache, segs: seq<Segment>, route: int, k: nat)
    requires ListInv(c) && k < |segs|
    ensures Attempted(c, segs, route) <= segs
    ensures k < |Attempted(c, segs, route)|
            <==> forall j :: 0 <= j < k ==> Accepts(AfterAdds(c, segs[..j], route), segs[j].segmentSize)
  {
    hide Accepts, AfterAdds, ListInv;
  }

  /** The pending counter after one-segment batches for each of the listed segments. */
  function SettledEach(c: Cache, pending: int, segs: seq<Segment>, route: int): int
    requires ListInv(c)
  {
    if segs == [] then pending
    else
      var init, last := segs[..|segs| - 1], segs[|segs| - 1];
      Settled(SettledEach(c, pending, init, route),
              if last.segmentId in AfterAdds(c, init, route).segments then 0 else last.segmentSize)
  }

  /** Segment i was in the cache when its turn came. */
  predicate FoundAt(c: Cache, segs: seq<Segment>, route: int, i: nat)
    requires ListInv(c) && i < |segs|
  {
    segs[i].segmentId in AfterAdds(c, segs[..i], route).segments
  }

  /** Ids among the first n found in the cache at their turn. */
  function LocalIds(c: Cache, segs: seq<Segment>, route: int, n: nat): set<string>
    requires ListInv(c) && n <= |segs|
  {
    set i | 0 <= i < n && FoundAt(c, segs, route, i) :: segs[i].segmentId
  }

  /** Positions among the first n to be fetched from another edge. */
  function EdgeIdxs(c: Cache, req: Request, n: nat): set<nat>
    requires ListInv(c) && n <= |req.segments|
  {
    set i: nat | 0 <= i < n && !FoundAt(c, req.segments, req.tokenId, i)
                 && SourceOf(req, req.segments[i].segmentId) != CDNSRC
  }

  datatype HistoryRecord = HistoryRecord(segmentId: string, timestamp: int, routeId: int, segmentSize: nat)

  /** The records of those among the first n that had to be downloaded, each at the clock of its own turn. */
  function History(c: Cache, req: Request, clock: nat -> int, n: nat): seq<HistoryRecord>
    requires ListInv(c) && n <= |req.segments|
  {
    if n == 0 then []
    else
      var seg := req.segments[n - 1];
      History(c, req, clock, n - 1)
      + if FoundAt(c, req.segments, req.tokenId, n - 1) then []
        else [HistoryRecord(seg.segmentId, clock(n - 1), req.tokenId, seg.segmentSize)]
  }

  /** Bytes by where they come from: the cache, another edge, or the cloud. */
  datatype Account = Account(local: nat, edge: nat, cloud: nat)

  function Accounted(segs: seq<Segment>, local: set<string>, edge: set<nat>): Account {
    if segs == [] then Account(0, 0, 0)
    else
      var i := |segs| - 1;
      var a, size := Accounted(segs[..i], local, edge), segs[i].segmentSize;
      if segs[i].segmentId in local then a.(local := a.local + size)
      else if i in edge then a.(edge := a.edge + size)
      else a.(cloud := a.cloud + size)
  }

  /** Every byte of a processed request is accounted to one of them. */
  lemma {:induction false} AccountsAddUp(segs: seq<Segment>, local: set<string>, edge: set<nat>)
    ensures var a := Accounted(segs, local, edge);
            a.local + a.edge + a.cloud == TotalSize(segs)
  {
    if segs != [] {
      AccountsAddUp(segs[..|segs| - 1], local, edge);
    }
  }

  datatype Provider = TheCache | OtherEdge | TheCloud

  predicate IsFrom(segs: seq<Segment>, local: set<string>, edge: set<nat>, provider: Provider, i: nat)
    requires i < |segs|
  {
    match provider
    case TheCache => segs[i].segmentId in local
    case OtherEdge => segs[i].segmentId !in local && i in edge
    case TheCloud => segs[i].segmentId !in local && i !in edge
  }

  ghost function PositionsFrom(segs: seq<Segment>, local: set<string>, edge: set<nat>, provider: Provider): set<nat> {
    set i: nat | i < |segs| && IsFrom(segs, local, edge, provider, i)
  }

  /** One position more adds its bytes to its own provider only. */
  lemma OriginSnoc(segs: seq<Segment>, local: set<string>, edge: set<nat>, provider: Provider)
    requires segs != []
    ensures var n: nat := |segs| - 1;
            BytesAt(segs, PositionsFrom(segs, local, edge, provider))
            == BytesAt(segs[..n], PositionsFrom(segs[..n], local, edge, provider))
               + if IsFrom(segs, local, edge, provider, n) then segs[n].segmentSize else 0
  {
    hide BytesAt;
    var n: nat := |segs| - 1;
    var before, now := PositionsFrom(segs[..n], local, edge, provider), PositionsFrom(segs, local, edge, provider);
    BytesSnoc(segs, before);
    assert now == if IsFrom(segs, local, edge, provider, n) then before + {n} else before;
  }

  /** Accounting is by position: the cached ids, then the fetched positions, then the rest. */
  lemma {:induction false} AccountedExactly(segs: seq<Segment>, local: set<string>, edge: set<nat>)
    ensures var a := Accounted(segs, local, edge);
            && a.local == BytesAt(segs, PositionsFrom(segs, local, edge, TheCache))
            && a.edge == BytesAt(segs, PositionsFrom(segs, local, edge, OtherEdge))
            && a.cloud == BytesAt(segs, PositionsFrom(segs, local, edge, TheCloud))
  {
    hide BytesAt, PositionsFrom;
    if segs == [] {
      forall provider {
        NothingFrom(local, edge, provider);
      }
    } else {
      AccountedExactly(segs[..|segs| - 1], local, edge);
      forall provider {
        OriginSnoc(segs, local, edge, provider);
      }
    }
  }

  lemma NothingFrom(local: set<string>, edge: set<nat>, provider: Provider)
    ensures BytesAt([], PositionsFrom([], local, edge, provider)) == 0
  {
    assert PositionsFrom([], local, edge, provider) == {};
  }

  /** Positions whose id was in the cache at its turn, there or at another position among the first n. */
  ghost function FromCache(c: Cache, req: Request, n: nat): set<nat>
    requires ListInv(c) && n <= |req.segments|
  {
    set i: nat | i < |req.segments|
      && exists j :: 0 <= j < n && req.segments[j].segmentId == req.segments[i].segmentId
                     && FoundAt(c, req.segments, req.tokenId, j)
  }

  /** Positions among the first n that were delivered, are named a source without "ftp" in it, and were not cached. */
  ghost function FromEdge(c: Cache, req: Request, n: nat, fetched: set<nat>): set<nat>
    requires ListInv(c) && n <= |req.segments|
  {
    set i: nat | i < n && i !in FromCache(c, req, n) && i in fetched && !NamesCloud(req, req.segments[i].segmentId)
  }

  lemma OriginAt(c: Cache, req: Request, n: nat, fetched: set<nat>, i: nat)
    requires ListInv(c) && n <= |req.segments| && i < |req.segments|
    ensures var cached := req.segments[i].segmentId in LocalIds(c, req.segments, req.tokenId, n);
            && (cached <==> i in FromCache(c, req, n))
            && (i in FromEdge(c, req, n, fetched) <==> !cached && i in EdgeIdxs(c, req, n) * fetched)
  {
    hide FoundAt, ListInv, SourceOf, NamesCloud;
    SourceExactly(req, req.segments[i].segmentId);
    assert i < n && FoundAt(c, req.segments, req.tokenId, i) ==>
        req.segments[i].segmentId in LocalIds(c, req.segments, req.tokenId, n);
  }

  /** A processed request's bytes by provider, position by position. */
  lemma OriginsExactly(c: Cache, req: Request, n: nat, fetched: set<nat>)
    requires ListInv(c) && n <= |req.segments|
    ensures var segs := req.segments;
            var a := Accounted(segs, LocalIds(c, segs, req.tokenId, n), EdgeIdxs(c, req, n) * fetched);
            var cached, edge := FromCache(c, req, n), FromEdge(c, req, n, fetched);
            && a.local == BytesAt(segs, cached) && a.edge == BytesAt(segs, edge)
            && a.cloud == BytesAt(segs, set i: nat | i < |segs| && i !in cached && i !in edge)
  {
    hide FromCache, FromEdge, ListInv, LocalIds, EdgeIdxs, BytesAt, Accounted;
    var segs := req.segments;
    var local, from := LocalIds(c, segs, req.tokenId, n), EdgeIdxs(c, req, n) * fetched;
    var cached, edge := FromCache(c, req, n), FromEdge(c, req, n, fetched);
    AccountedExactly(segs, local, from);
    OriginsWithin(c, req, n, fetched);
    forall i: nat | i < |segs| {
      OriginAt(c, req, n, fetched, i);
    }
    assert PositionsFrom(segs, local, from, TheCache) == cached;
    assert PositionsFrom(segs, local, from, OtherEdge) == edge;
    assert PositionsFrom(segs, local, from, TheCloud) == set i: nat | i < |segs| && i !in cached && i !in edge;
  }

  lemma OriginsWithin(c: Cache, req: Request, n: nat, fetched: set<nat>)
    requires ListInv(c) && n <= |req.segments|
    ensures forall i :: i in FromCache(c, req, n) || i in FromEdge(c, req, n, fetched) ==> i < |req.segments|
  {
  }

  /** What the history says of the first n segments, one record for each. */
  function Records(req: Request, clock: nat -> int, n: nat): (rs: seq<HistoryRecord>)
    requires n <= |req.segments|
    ensures |rs| == n
  {
    seq(n, i requires 0 <= i < n =>
      HistoryRecord(req.segments[i].segmentId, clock(i), req.tokenId, req.segments[i].segmentSize))
  }

  /** Recorded, in order, are exactly those that were missing at their turn. */
  lemma {:induction false} HistoryExactly(c: Cache, req: Request, clock: nat -> int, n: nat)
    requires ListInv(c) && n <= |req.segments|
    ensures Keeps(History(c, req, clock, n), Records(req, clock, n),
                  set i: nat | i < n && !FoundAt(c, req.segments, req.tokenId, i))
  {
    hide FoundAt, ListInv, Keeps;
    var kept := set i: nat | i < n && !FoundAt(c, req.segments, req.tokenId, i);
    if n == 0 {
      assert kept == {};
      KeepsNothing(Records(req, clock, 0));
    } else {
      var m: nat := n - 1;
      var before := set i: nat | i < m && !FoundAt(c, req.segments, req.tokenId, i);
      var all := Records(req, clock, n);
      HistoryExactly(c, req, clock, m);
      KeepsSnoc(History(c, req, clock, m), Records(req, clock, m), before, all[m]);
      assert all == Records(req, clock, m) + [all[m]];
      assert kept == if FoundAt(c, req.segments, req.tokenId, m) then before else before + {m};
      assert History(c, req, clock, m) + [] == History(c, req, clock, m);
    }
  }

  lemma FoundStep(c: Cache, req: Request, clock: nat -> int, i: nat)
    requires ListInv(c) && i < |req.segments|
    ensures var segs, route := req.segments, req.tokenId;
            var found := FoundAt(c, segs, route, i);
            && LocalIds(c, segs, route, i + 1)
                == LocalIds(c, segs, route, i) + (if found then {segs[i].segmentId} else {})
            && EdgeIdxs(c, req, i + 1)
               == EdgeIdxs(c, req, i) + (if !found && SourceOf(req, segs[i].segmentId) != CDNSRC then {i} else {})
            && History(c, req, clock, i + 1) == History(c, req, clock, i)
                 + if found then [] else [HistoryRecord(segs[i].segmentId, clock(i), route, segs[i].segmentSize)]
  {
    hide FoundAt, SourceOf, ListInv;
  }

  /** One more segment processed. */
  lemma ProcessStep(c: Cache, pending: int, req: Request, i: nat)
    requires ListInv(c) && i < |req.segments|
    ensures var segs, route := req.segments, req.tokenId;
            var d, seg := AfterAdds(c, segs[..i], route), segs[i];
            var found := FoundAt(c, segs, route, i);
            && (found <==> seg.segmentId in d.segments)
            && AfterAdds(c, segs[..i + 1], route) == Step(d, Add(seg, route))
            && SettledEach(c, pending, segs[..i + 1], route)
               == Settled(SettledEach(c, pending, segs[..i], route), if found then 0 else seg.segmentSize)
            && AcceptedCount(c, segs, route, i)
                == if Accepts(d, seg.segmentSize) then AcceptedCount(c, segs, route, i + 1) else i
  {
    hide Step, Settled, Accepts, SourceOf;
    assert req.segments[..i + 1][..i] == req.segments[..i];
    AddsPrefix(req.segments[..i + 1], req.tokenId, i);
  }

  lemma ProcessStart(c: Cache, pending: int, req: Request, clock: nat -> int)
    requires ListInv(c)
    ensures var segs, route := req.segments, req.tokenId;
            && AfterAdds(c, segs[..0], route) == c && SettledEach(c, pending, segs[..0], route) == pending
            && LocalIds(c, segs, route, 0) == {} && EdgeIdxs(c, req, 0) == {} && History(c, req, clock, 0) == []
  {
  }

  /** A batch of one. */
  lemma SingleBatch(c: Cache, seg: Segment, route: int)
    requires ListInv(c)
    ensures var b := Batched(c, [seg], route);
            && b.cache == Step(c, Add(seg, route))
            && (b.committed != [] <==> Accepts(c, seg.segmentSize))
            && b.missing == if seg.segmentId in c.segments then 0 else seg.segmentSize
  {
    hide Step, Accepts;
    assert [seg][..0] == [];
  }

  lemma AddsPrefix(segs: seq<Segment>, route: int, i: nat)
    requires i <= |segs|
    ensures Adds(segs, route)[..i] == Adds(segs[..i], route)
  {
  }

  lemma AcceptedAtLeast(c: Cache, segs: seq<Segment>, route: int, m: nat)
    requires ListInv(c) && m <= |segs|
    requires forall k :: 0 <= k < m ==> Accepts(AfterAdds(c, segs[..k], route), segs[k].segmentSize)
    ensures m <= AcceptedCount(c, segs, route, 0)
  {
  }

  /** Everything admission commits, with a non-negative pending counter, is accepted when processed next. */
  lemma CommittedAccepted(sizes: string -> nat, c: Cache, pending: int, known: set<string>, req: Request)
    requires Inv(c) && StoredSizes(sizes, c) && SizesAgree(sizes, req.segments)
    requires pending >= 0
    ensures |Committed(c, pending, known, req)| <= AcceptedCount(c, req.segments, req.tokenId, 0)
  {
    var segs := Committed(c, pending, known, req);
    var ops := Adds(segs, req.tokenId);
    Reservation(sizes, c, pending, known, req);
    hide Inv, StoredSizes, SizesAgree, Accepts, Run, ListInv, Committed;
    forall k | 0 <= k < |segs|
      ensures Accepts(AfterAdds(c, req.segments[..k], req.tokenId), req.segments[k].segmentSize)
    {
      assert segs[..k] == req.segments[..k];
      AddsPrefix(segs, req.tokenId, k);
      assert AcceptedTurn(c, ops, k) && ops[k].Add?;
    }
    AcceptedAtLeast(c, req.segments, req.tokenId, |segs|);
  }

  /**
    Admission and processing compose: a request admitted with a non-negative
    pending counter and processed next leaves every committed segment pinned
    for its route, although the whole offer is processed, not the commitment.
   */
  lemma AdmittedThenPinned(sizes: string -> nat, c: Cache, pending: int, known: set<string>, req: Request, i: nat)
    requires Inv(c) && StoredSizes(sizes, c) && SizesAgree(sizes, req.segments)
    requires pending >= 0
    requires i < |Committed(c, pending, known, req)|
    ensures Pinned(AfterAdds(c, Attempted(c, req.segments, req.tokenId), req.tokenId), req.segments[i].segmentId,
        req.tokenId)
  {
    hide ListInv, Accepts, StoredSizes, SizesAgree, Pinned, Run, Committed;
    CommittedAccepted(sizes, c, pending, known, req);
    var all := Attempted(c, req.segments, req.tokenId);
    assert all[..i] == req.segments[..i] && all[i] == req.segments[i];
    AddsPrefix(all, req.tokenId, i);
    AcceptedArePinned(c, Adds(all, req.tokenId), i);
  }

  // ----- the pending counter -----

  /** A segment not offered before and not at risk of eviction is missing later iff it is missing now. */
  lemma {:induction false} MissingStable(c: Cache, segs: seq<Segment>, route: int, id: string)
    requires ListInv(c)
    requires id !in Ids(segs) && id !in c.evictable
    ensures id in AfterAdds(c, segs, route).segments <==> id in c.segments
    ensures id !in AfterAdds(c, segs, route).evictable
  {
    if segs != [] {
      var init, last := segs[..|segs| - 1], segs[|segs| - 1];
      assert Ids(segs) == Ids(init) + [last.segmentId];
      AddsPrefix(segs, route, |segs| - 1);
      MissingStable(c, init, route, id);
      AddKeepsOthers(AfterAdds(c, init, route), last, route, id);
    }
  }

  lemma AddKeepsOthers(c: Cache, seg: Segment, route: int, id: string)
    requires ListInv(c) && id != seg.segmentId && id !in c.evictable
    ensures var d := AddSegment(c, seg, route);
            (id in d.segments <==> id in c.segments) && id !in d.evictable
  {
    if Fits(c, seg.segmentSize) {
      var n := Victims(c, seg.segmentSize);
      PopNFrame(c, n);
      assert forall k :: k in c.evictable[..n] || k in c.evictable[n..] ==> k in c.evictable;
      TouchKeepsOthers(PopN(c, n), seg, route, id);
    }
  }

  lemma TouchKeepsOthers(c: Cache, seg: Segment, route: int, id: string)
    requires WellListed(c) && id != seg.segmentId && id !in c.evictable
    ensures var d := Touch(c, seg, route);
            (id in d.segments <==> id in c.segments) && id !in d.evictable
  {
    var i := IndexOf(c.evictable, seg.segmentId);
    if i < |c.evictable| {
      RemoveAtMembers(c.evictable, i);
    }
  }

  lemma {:induction false} SettledPrefix(c: Cache, pending: int, segs: seq<Segment>, route: int, i: nat)
    requires ListInv(c) && pending >= 0 && i <= |segs|
    requires Distinct(Ids(segs))
    requires forall k :: 0 <= k < |segs| ==> segs[k].segmentId !in c.evictable
    ensures SettledEach(c, pending + MissingSize(c, segs), segs[..i], route)
            == pending + MissingSize(c, segs) - MissingSize(c, segs[..i])
    ensures MissingSize(c, segs[..i]) <= MissingSize(c, segs)
  {
    MissingPrefix(c, segs, i);
    if i > 0 {
      SettledPrefix(c, pending, segs, route, i - 1);
      MissingPrefix(c, segs, i - 1);
      assert segs[..i][..i - 1] == segs[..i - 1];
      assert Ids(segs)[i - 1] == segs[i - 1].segmentId;
      assert Ids(segs[..i - 1]) == Ids(segs)[..i - 1];
      MissingStable(c, segs[..i - 1], route, segs[i - 1].segmentId);
    }
  }

  lemma {:induction false} MissingPrefix(c: Cache, segs: seq<Segment>, i: nat)
    requires i <= |segs|
    ensures MissingSize(c, segs[..i]) <= MissingSize(c, segs)
    decreases |segs|
  {
    if i < |segs| {
      assert segs[..|segs| - 1][..i] == segs[..i];
      MissingPrefix(c, segs[..|segs| - 1], i);
    } else {
      assert segs[..i] == segs;
    }
  }

  /**
    Reservations are returned in full: a request committed whole, with distinct
    segments none of which the cache holds without a route, leaves the pending
    counter after processing exactly as it was before admission.
   */
  lemma PendingBalances(sizes: string -> nat, c: Cache, pending: int, known: set<string>, req: Request)
    requires Inv(c) && StoredSizes(sizes, c) && SizesAgree(sizes, req.segments)
    requires pending >= 0 && Committed(c, pending, known, req) == req.segments
    requires Distinct(Ids(req.segments))
    requires forall k :: 0 <= k < |req.segments| ==> req.segments[k].segmentId !in c.evictable
    ensures Attempted(c, req.segments, req.tokenId) == req.segments
    ensures SettledEach(c, PendingAfter(c, pending, known, [req]), req.segments, req.tokenId) == pending
  {
    hide ListInv, Committed, MissingSize, SettledEach, Attempted, PendingAfter, Ids, SizesAgree, StoredSizes;
    WholeOfferAttempted(sizes, c, pending, known, req);
    PendingAfterOne(c, pending, known, req);
    SettledWhole(c, pending, req.segments, req.tokenId);
  }

  lemma WholeOfferAttempted(sizes: string -> nat, c: Cache, pending: int, known: set<string>, req: Request)
    requires Inv(c) && StoredSizes(sizes, c) && SizesAgree(sizes, req.segments)
    requires pending >= 0 && Committed(c, pending, known, req) == req.segments
    ensures Attempted(c, req.segments, req.tokenId) == req.segments
  {
    CommittedAccepted(sizes, c, pending, known, req);
  }

  lemma SettledWhole(c: Cache, pending: int, segs: seq<Segment>, route: int)
    requires ListInv(c) && pending >= 0 && Distinct(Ids(segs))
    requires forall k :: 0 <= k < |segs| ==> segs[k].segmentId !in c.evictable
    ensures SettledEach(c, pending + MissingSize(c, segs), segs, route) == pending
  {
    SettledPrefix(c, pending, segs, route, |segs|);
    assert segs[..|segs|] == segs;
  }

  lemma PendingAfterOne(c: Cache, pending: int, known: set<string>, req: Request)
    ensures PendingAfter(c, pending, known, [req]) == pending + MissingSize(c, Committed(c, pending, known, req))
  {
    assert [req][..0] == [];
  }

  /** Bytes among the listed segments that were missing when their turn came. */
  function MissedTo(c: Cache, segs: seq<Segment>, route: int): nat
    requires ListInv(c)
  {
    if segs == [] then 0
    else
      var init, last := segs[..|segs| - 1], segs[|segs| - 1];
      MissedTo(c, init, route) + if last.segmentId in AfterAdds(c, init, route).segments then 0 else last.segmentSize
  }

  /** At some turn exactly the pending bytes have been missing: the counter stops at zero. */
  ghost predicate SettlesExactly(c: Cache, pending: int, segs: seq<Segment>, route: int)
    requires ListInv(c)
  {
    exists k :: 0 <= k <= |segs| && MissedTo(c, segs[..k], route) == pending
  }

  lemma SettlesSnoc(c: Cache, pending: int, segs: seq<Segment>, route: int)
    requires ListInv(c) && segs != []
    ensures SettlesExactly(c, pending, segs, route)
            <==> SettlesExactly(c, pending, segs[..|segs| - 1], route) || MissedTo(c, segs, route) == pending
  {
    hide MissedTo, ListInv;
    var init := segs[..|segs| - 1];
    assert forall k :: 0 <= k <= |init| ==> init[..k] == segs[..k];
    assert segs[..|segs|] == segs;
    if SettlesExactly(c, pending, segs, route) {
      var k :| 0 <= k <= |segs| && MissedTo(c, segs[..k], route) == pending;
      assert k <= |init| ==> MissedTo(c, init[..k], route) == pending;
    }
    if SettlesExactly(c, pending, init, route) {
      var k :| 0 <= k <= |init| && MissedTo(c, init[..k], route) == pending;
      assert MissedTo(c, segs[..k], route) == pending;
    }
  }

  lemma SettlesNow(c: Cache, pending: int, segs: seq<Segment>, route: int)
    requires ListInv(c)
    ensures MissedTo(c, segs, route) == pending ==> SettlesExactly(c, pending, segs, route)
  {
    assert segs[..|segs|] == segs;
  }

  /** What settling does to a counter that is not negative. */
  lemma {:induction false} SettledValue(c: Cache, pending: int, segs: seq<Segment>, route: int)
    requires ListInv(c) && pending >= 0
    ensures var p, missed := SettledEach(c, pending, segs, route), MissedTo(c, segs, route);
            && (missed < pending ==> p == pending - missed && !SettlesExactly(c, pending, segs, route))
            && (missed >= pending ==> if SettlesExactly(c, pending, segs, route) then p == 0 else p < 0)
  {
    if segs != [] {
      SettledValue(c, pending, segs[..|segs| - 1], route);
      SettlesSnoc(c, pending, segs, route);
      SettlesNow(c, pending, segs[..|segs| - 1], route);
      hide SettlesExactly, AfterAdds, ListInv;
    } else {
      assert segs[..0] == segs;
    }
  }

  /**
    The counter stays non-negative through a processed request exactly when
    fewer bytes than it held were missing at their turn, refused or not, or
    exactly that many at some turn.
   */
  lemma PendingStaysExactly(c: Cache, pending: int, segs: seq<Segment>, route: int)
    requires ListInv(c) && pending >= 0
    ensures var tried := Attempted(c, segs, route);
            SettledEach(c, pending, tried, route) >= 0
            <==> MissedTo(c, tried, route) < pending || SettlesExactly(c, pending, tried, route)
  {
    SettledValue(c, pending, Attempted(c, segs, route), route);
  }

  /** So from admission to processing: the whole offer may be missing, only the commitment was reserved. */
  lemma AdmittedStaysExactly(c: Cache, pending: int, known: set<string>, req: Request)
    requires ListInv(c) && pending >= 0
    ensures var reserved := MissingSize(c, Committed(c, pending, known, req));
            var tried := Attempted(c, req.segments, req.tokenId);
            SettledEach(c, PendingAfter(c, pending, known, [req]), tried, req.tokenId) >= 0
            <==> MissedTo(c, tried, req.tokenId) < pending + reserved
                 || SettlesExactly(c, pending + reserved, tried, req.tokenId)
  {
    hide Committed, MissingSize, MissedTo, SettledEach, Attempted, ListInv, SettlesExactly;
    PendingAfterOne(c, pending, known, req);
    PendingStaysExactly(c, pending + MissingSize(c, Committed(c, pending, known, req)), req.segments, req.tokenId);
  }

  /** A refused segment is settled all the same, which can drive the counter below zero. */
  lemma {:induction false} RefusalStillSettles(c: Cache, pending: int, seg: Segment, route: int)
    requires Inv(c) && seg.segmentId !in c.segments
    requires 0 < pending < seg.segmentSize && FreeSpace(c) < seg.segmentSize
    ensures Attempted(c, [seg], route) == [seg] && AfterAdds(c, [seg], route) == c
    ensures SettledEach(c, pending, [seg], route) < 0
  {
    AcceptsExactly(c, seg.segmentSize);
    assert [seg][..0] == [] && [seg][..1] == [seg];
    RunStep(c, [], Add(seg, route));
    assert Adds([seg], route) == [] + [Add(seg, route)];
    assert AfterAdds(c, [], route) == c;
    PendingStaysExactly(c, pending, [seg], route);
  }

  // ----- the overdue sweep -----

  /** UpdateSegmentStatus for each id in turn. */
  function ReleaseAll(c: Cache, ids: seq<string>, route: int): (d: Cache)
    requires ListInv(c)
    ensures ListInv(d)
  {
    if ids == [] then c
    else Step(ReleaseAll(c, ids[..|ids| - 1], route), Release(ids[|ids| - 1], route))
  }

  lemma {:induction false} ReleaseAllPins(c: Cache, ids: seq<string>, route: int, id: string, r: int)
    requires ListInv(c)
    ensures Pinned(ReleaseAll(c, ids, route), id, r) <==> Pinned(c, id, r) && !(r == route && id in ids)
  {
    if ids != [] {
      var init, last := ids[..|ids| - 1], ids[|ids| - 1];
      assert ids == init + [last];
      ReleaseAllPins(c, init, route, id, r);
      PinStep(ReleaseAll(c, init, route), Release(last, route), id, r);
    }
  }

  function Releases(ids: seq<string>, route: int): (ops: seq<Op>)
    ensures |ops| == |ids| && forall i :: 0 <= i < |ops| ==> ops[i] == Release(ids[i], route)
  {
    seq(|ids|, i requires 0 <= i < |ids| => Release(ids[i], route))
  }

  ghost predicate OnlyReleases(ops: seq<Op>) {
    forall i :: 0 <= i < |ops| ==> ops[i].Release?
  }

  lemma {:induction false} ReleaseAllIsRun(c: Cache, ids: seq<string>, route: int)
    requires ListInv(c)
    ensures ReleaseAll(c, ids, route) == Run(c, Releases(ids, route))
  {
    hide Step, ListInv;
    if ids != [] {
      assert Releases(ids, route)[..|ids| - 1] == Releases(ids[..|ids| - 1], route);
      ReleaseAllIsRun(c, ids[..|ids| - 1], route);
    }
  }

  /** d comes from c by releases alone: it is part of the same run of the cache. */
  ghost predicate ReleasedTo(c: Cache, d: Cache)
    requires ListInv(c)
  {
    exists ops :: OnlyReleases(ops) && d == Run(c, ops)
  }

  lemma ReleasedMore(c: Cache, d: Cache, ids: seq<string>, route: int)
    requires ListInv(c) && ListInv(d) && ReleasedTo(c, d)
    ensures ReleasedTo(c, ReleaseAll(d, ids, route))
  {
    hide Run, ListInv, ReleaseAll;
    var ops :| OnlyReleases(ops) && d == Run(c, ops);
    ReleaseAllIsRun(d, ids, route);
    RunConcat(c, ops, Releases(ids, route));
    assert OnlyReleases(ops + Releases(ids, route));
  }

  lemma {:induction false} ReleaseAllKeys(c: Cache, ids: seq<string>, route: int)
    requires ListInv(c)
    ensures ReleaseAll(c, ids, route).segments.Keys == c.segments.Keys
  {
    if ids != [] {
      ReleaseAllKeys(c, ids[..|ids| - 1], route);
    }
  }

  predicate Overdue(req: Request, now: int, threshold: int) {
    now as real > req.arrivalTime as real + req.contactTime + threshold as real
  }

  /** How many leading segments of the list the route still pins. */
  function UnusedCount(c: Cache, segs: seq<Segment>, route: int): (n: nat)
    ensures n <= |segs|
    ensures forall k :: 0 <= k < n ==> Pinned(c, segs[k].segmentId, route)
    ensures n < |segs| ==> !Pinned(c, segs[n].segmentId, route)
  {
    if segs == [] || !Pinned(c, segs[0].segmentId, route) then 0
    else 1 + UnusedCount(c, segs[1..], route)
  }

  function Unused(c: Cache, segs: seq<Segment>, route: int): seq<string> {
    Ids(segs[..UnusedCount(c, segs, route)])
  }

  function StillPinned(c: Cache, segs: seq<Segment>, route: int): seq<Segment> {
    if segs == [] then []
    else
      var last := segs[|segs| - 1];
      StillPinned(c, segs[..|segs| - 1], route) + if Pinned(c, last.segmentId, route) then [last] else []
  }

  /** What is reported: the undelivered segments after the first delivered one. */
  function Undelivered(c: Cache, segs: seq<Segment>, route: int): seq<Segment> {
    StillPinned(c, segs[UnusedCount(c, segs, route)..], route)
  }

  function Report(c: Cache, routes: map<int, Request>, now: int, threshold: int): map<int, seq<Segment>> {
    map r | r in routes && Overdue(routes[r], now, threshold) && Undelivered(c, routes[r].segments, r) != []
      :: Undelivered(c, routes[r].segments, r)
  }

  lemma {:induction false} LateSnoc(c: Cache, segs: seq<Segment>, route: int, n: nat, i: nat)
    requires n <= i < |segs|
    ensures StillPinned(c, segs[n..i + 1], route)
            == StillPinned(c, segs[n..i], route) + if Pinned(c, segs[i].segmentId, route) then [segs[i]] else []
  {
    assert segs[n..i + 1][..i - n] == segs[n..i];
  }

  /** Route r is one of those swept, and id one of its leading unused segments. */
  predicate Drops(c: Cache, routes: map<int, Request>, now: int, threshold: int, id: string, r: int) {
    r in routes && Overdue(routes[r], now, threshold) && id in Unused(c, routes[r].segments, r)
  }

  /** No overdue route pins the first of its segments. */
  ghost predicate NoneUnused(c: Cache, routes: map<int, Request>, now: int, threshold: int) {
    forall r :: r in routes && Overdue(routes[r], now, threshold) ==> Unused(c, routes[r].segments, r) == []
  }

  /**
    The sweep takes exactly the pins of the unused prefixes of the overdue
    routes, by releases alone, and changes nothing when there is none.
   */
  ghost predicate Swept(c: Cache, d: Cache, routes: map<int, Request>, now: int, threshold: int)
    requires ListInv(c)
  {
    && ReleasedTo(c, d)
    && (NoneUnused(c, routes, now, threshold) ==> d == c)
    && d.segments.Keys == c.segments.Keys
    && forall id, r :: Pinned(d, id, r) <==> Pinned(c, id, r) && !Drops(c, routes, now, threshold, id, r)
  }

  /** The sweep of one more overdue route, whichever comes next. */
  lemma SweepOne(c: Cache, d: Cache, routes: map<int, Request>, r: int, req: Request, now: int, threshold: int)
    requires ListInv(c) && ListInv(d) && r !in routes
    requires Swept(c, d, routes, now, threshold) && Overdue(req, now, threshold)
    ensures Undelivered(d, req.segments, r) == Undelivered(c, req.segments, r)
    ensures Swept(c, ReleaseAll(d, Unused(d, req.segments, r), r), routes[r := req], now, threshold)
  {
    var segs := req.segments;
    SweptOwnPins(c, d, routes, r, now, threshold);
    SamePins(c, d, segs, r);
    SweepUnchanged(c, d, routes, r, req, now, threshold);
    ReleasedMore(c, d, Unused(d, segs, r), r);
    SweepPins(c, d, routes, r, req, now, threshold);
    ReleaseAllKeys(d, Unused(d, segs, r), r);
    hide ReleasedTo, ReleaseAll, NoneUnused, ListInv, Overdue, Unused, StillPinned, Pinned, Drops;
  }

  lemma SweepPins(c: Cache, d: Cache, routes: map<int, Request>, r: int, req: Request, now: int, threshold: int)
    requires ListInv(d) && r !in routes && Overdue(req, now, threshold)
    requires forall id, q :: Pinned(d, id, q) <==> Pinned(c, id, q) && !Drops(c, routes, now, threshold, id, q)
    requires Unused(d, req.segments, r) == Unused(c, req.segments, r)
    ensures var e := ReleaseAll(d, Unused(d, req.segments, r), r);
            forall id, q ::
              Pinned(e, id, q) <==> Pinned(c, id, q) && !Drops(c, routes[r := req], now, threshold, id, q)
  {
    hide ReleaseAll, ListInv, Overdue, Unused, Pinned;
    var ids := Unused(d, req.segments, r);
    forall id, q
      ensures Pinned(ReleaseAll(d, ids, r), id, q)
              <==> Pinned(c, id, q) && !Drops(c, routes[r := req], now, threshold, id, q)
    {
      ReleaseAllPins(d, ids, r, id, q);
    }
  }

  /** Routes not swept yet have all their pins. */
  lemma SweptOwnPins(c: Cache, d: Cache, routes: map<int, Request>, r: int, now: int, threshold: int)
    requires ListInv(c) && r !in routes && Swept(c, d, routes, now, threshold)
    ensures forall id :: Pinned(d, id, r) <==> Pinned(c, id, r)
  {
    hide ReleasedTo, NoneUnused, Pinned;
  }

  lemma SweepUnchanged(c: Cache, d: Cache, routes: map<int, Request>, r: int, req: Request, now: int, threshold: int)
    requires ListInv(c) && ListInv(d) && r !in routes && Overdue(req, now, threshold)
    requires NoneUnused(c, routes, now, threshold) ==> d == c
    requires Unused(d, req.segments, r) == Unused(c, req.segments, r)
    ensures NoneUnused(c, routes[r := req], now, threshold) ==>
              ReleaseAll(d, Unused(d, req.segments, r), r) == c
  {
    hide Overdue, Unused, ListInv;
    if NoneUnused(c, routes[r := req], now, threshold) {
      assert routes[r := req][r] == req && forall q :: q in routes ==> routes[r := req][q] == routes[q];
    }
  }

  /** The split of a list depends only on the route's own pins. */
  lemma {:induction false} SamePins(c: Cache, d: Cache, segs: seq<Segment>, r: int)
    requires forall id :: Pinned(d, id, r) <==> Pinned(c, id, r)
    ensures UnusedCount(d, segs, r) == UnusedCount(c, segs, r) && Unused(d, segs, r) == Unused(c, segs, r)
    ensures StillPinned(d, segs, r) == StillPinned(c, segs, r)
    ensures Undelivered(d, segs, r) == Undelivered(c, segs, r)
    decreases |segs|, 1
  {
    SamePinned(c, d, segs, r);
    var n := UnusedCount(c, segs, r);
    assert UnusedCount(d, segs, r) == n;
    SamePinned(c, d, segs[n..], r);
  }

  lemma {:induction false} SamePinned(c: Cache, d: Cache, segs: seq<Segment>, r: int)
    requires forall id :: Pinned(d, id, r) <==> Pinned(c, id, r)
    ensures StillPinned(d, segs, r) == StillPinned(c, segs, r)
  {
    if segs != [] {
      SamePinned(c, d, segs[..|segs| - 1], r);
    }
  }

  lemma SweepNone(c: Cache, now: int, threshold: int)
    requires ListInv(c)
    ensures Report(c, map[], now, threshold) == map[] && Swept(c, c, map[], now, threshold)
  {
    hide ListInv;
    assert OnlyReleases([]) && c == Run(c, []);
  }

  lemma SweepSkip(c: Cache, d: Cache, routes: map<int, Request>, r: int, req: Request, now: int, threshold: int)
    requires ListInv(c) && r !in routes && Swept(c, d, routes, now, threshold) && !Overdue(req, now, threshold)
    ensures Swept(c, d, routes[r := req], now, threshold)
  {
    hide ReleasedTo, ListInv, Unused, Overdue, Pinned;
    var all := routes[r := req];
    assert all[r] == req && forall q :: q in routes ==> all[q] == routes[q];
    forall id, q
      ensures Drops(c, all, now, threshold, id, q) <==> Drops(c, routes, now, threshold, id, q)
    {
    }
    assert NoneUnused(c, all, now, threshold) ==> NoneUnused(c, routes, now, threshold);
  }

  lemma ReportOne(c: Cache, routes: map<int, Request>, r: int, req: Request, now: int, threshold: int)
    requires r !in routes
    ensures var old', new' := Report(c, routes, now, threshold), Report(c, routes[r := req], now, threshold);
            new' == if Overdue(req, now, threshold) && Undelivered(c, req.segments, r) != []
                    then old'[r := Undelivered(c, req.segments, r)] else old'
  {
    hide Overdue, Undelivered;
  }

  // ----- what a sweep does, from the request's times -----

  /** The route pins every segment of the list up to position k. */
  predicate UnusedUpTo(c: Cache, segs: seq<Segment>, route: int, k: nat) {
    k < |segs| && forall j :: 0 <= j <= k ==> Pinned(c, segs[j].segmentId, route)
  }

  /** The id is that of a segment which, with all before it, the route still pins. */
  ghost predicate LeadsUnused(c: Cache, segs: seq<Segment>, route: int, id: string) {
    exists k: nat :: UnusedUpTo(c, segs, route, k) && segs[k].segmentId == id
  }

  /** The positions the route pins although it does not pin all before them. */
  ghost function Missed(c: Cache, segs: seq<Segment>, route: int): set<nat> {
    set k: nat | k < |segs| && Pinned(c, segs[k].segmentId, route) && !UnusedUpTo(c, segs, route, k)
  }

  /** What the sweep leaves of one route's pins, and reports for it: all as before until its time has passed. */
  ghost predicate SweptInTime(c: Cache, d: Cache, report: map<int, seq<Segment>>, r: int, req: Request, now: int,
      threshold: int) {
    if now as real <= req.arrivalTime as real + req.contactTime + threshold as real then
      r !in report && forall id :: Pinned(d, id, r) <==> Pinned(c, id, r)
    else
      && (forall id :: Pinned(d, id, r) <==> Pinned(c, id, r) && !LeadsUnused(c, req.segments, r, id))
      && (r in report <==> Missed(c, req.segments, r) != {})
      && (r in report ==> Keeps(report[r], req.segments, Missed(c, req.segments, r)))
  }

  lemma UnusedLead(c: Cache, segs: seq<Segment>, route: int, id: string)
    ensures id in Unused(c, segs, route) <==> LeadsUnused(c, segs, route, id)
  {
    hide Pinned, UnusedCount;
    var n := UnusedCount(c, segs, route);
    assert forall k: nat :: k < |segs| ==> (k < n <==> UnusedUpTo(c, segs, route, k));
    if id in Unused(c, segs, route) {
      var k :| 0 <= k < n && Unused(c, segs, route)[k] == id;
      assert UnusedUpTo(c, segs, route, k) && segs[k].segmentId == id;
    }
    if LeadsUnused(c, segs, route, id) {
      var k: nat :| UnusedUpTo(c, segs, route, k) && segs[k].segmentId == id;
      assert Unused(c, segs, route)[k] == id;
    }
  }

  lemma MissedFrom(c: Cache, segs: seq<Segment>, route: int, k: nat)
    requires k < |segs|
    ensures k in Missed(c, segs, route) <==> UnusedCount(c, segs, route) <= k && Pinned(c, segs[k].segmentId, route)
  {
    hide Pinned, UnusedCount;
    var n := UnusedCount(c, segs, route);
    assert k < n <==> UnusedUpTo(c, segs, route, k);
  }

  lemma {:induction false} StillPinnedKeeps(c: Cache, segs: seq<Segment>, route: int, n: nat, i: nat)
    requires n <= i <= |segs|
    ensures Keeps(StillPinned(c, segs[n..i], route), segs[..i],
                  set k: nat | n <= k < i && Pinned(c, segs[k].segmentId, route))
    decreases i
  {
    hide Pinned, StillPinned, Keeps;
    var kept := set k: nat | n <= k < i && Pinned(c, segs[k].segmentId, route);
    if i == n {
      assert kept == {};
      NothingStillPinned(c, segs, route, n);
      KeepsNothing(segs[..n]);
    } else {
      var before := set k: nat | n <= k < i - 1 && Pinned(c, segs[k].segmentId, route);
      var at: nat := i - 1;
      StillPinnedKeeps(c, segs, route, n, at);
      LateSnoc(c, segs, route, n, at);
      KeepsSnoc(StillPinned(c, segs[n..at], route), segs[..at], before, segs[at]);
      assert segs[..i] == segs[..at] + [segs[at]];
      assert kept == if Pinned(c, segs[at].segmentId, route) then before + {at} else before;
      assert StillPinned(c, segs[n..at], route) + [] == StillPinned(c, segs[n..at], route);
    }
  }

  lemma NothingStillPinned(c: Cache, segs: seq<Segment>, route: int, n: nat)
    requires n <= |segs|
    ensures StillPinned(c, segs[n..n], route) == []
  {
  }

  /** What is reported for a route is what it pins behind a segment it does not pin. */
  lemma UndeliveredExactly(c: Cache, segs: seq<Segment>, route: int)
    ensures Keeps(Undelivered(c, segs, route), segs, Missed(c, segs, route))
    ensures Undelivered(c, segs, route) == [] <==> Missed(c, segs, route) == {}
  {
    hide Pinned, StillPinned, Keeps;
    var n := UnusedCount(c, segs, route);
    var kept := set k: nat | n <= k < |segs| && Pinned(c, segs[k].segmentId, route);
    StillPinnedKeeps(c, segs, route, n, |segs|);
    assert segs[n..|segs|] == segs[n..] && segs[..|segs|] == segs;
    forall k: nat
      ensures k in Missed(c, segs, route) <==> k in kept
    {
      if k < |segs| {
        MissedFrom(c, segs, route, k);
      }
    }
    assert Missed(c, segs, route) == kept;
    KeepsSize(Undelivered(c, segs, route), segs, kept);
  }

  /** The sweep, route by route: nothing before the deadline, exactly the unused prefix after it. */
  lemma SweepExactly(c: Cache, d: Cache, routes: map<int, Request>, now: int, threshold: int, r: int)
    requires ListInv(c) && Swept(c, d, routes, now, threshold)
    ensures r in routes ==> SweptInTime(c, d, Report(c, routes, now, threshold), r, routes[r], now, threshold)
    ensures r !in routes ==> r !in Report(c, routes, now, threshold)
                             && forall id :: Pinned(d, id, r) <==> Pinned(c, id, r)
  {
    hide ReleasedTo, NoneUnused, ListInv, Pinned, Unused, Undelivered, Keeps, LeadsUnused, Missed;
    if r in routes {
      UndeliveredExactly(c, routes[r].segments, r);
      forall id {
        UnusedLead(c, routes[r].segments, r, id);
      }
    }
  }

  lemma {:induction false} StillPinnedConcat(c: Cache, a: seq<Segment>, b: seq<Segment>, route: int)
    ensures StillPinned(c, a + b, route) == StillPinned(c, a, route) + StillPinned(c, b, route)
  {
    if b == [] {
      assert a + b == a;
    } else {
      assert (a + b)[..|a + b| - 1] == a + b[..|b| - 1];
      StillPinnedConcat(c, a, b[..|b| - 1], route);
    }
  }

  lemma {:induction false} StillPinnedNone(c: Cache, segs: seq<Segment>, route: int)
    requires forall k :: 0 <= k < |segs| ==> !Pinned(c, segs[k].segmentId, route)
    ensures StillPinned(c, segs, route) == []
  {
    if segs != [] {
      StillPinnedNone(c, segs[..|segs| - 1], route);
    }
  }

  /** Dropping the pins of `gone` leaves the list as it was iff no listed segment is among them. */
  lemma {:induction false} StillPinnedLess(c: Cache, d: Cache, segs: seq<Segment>, route: int, gone: seq<string>)
    requires forall id :: Pinned(d, id, route) <==> Pinned(c, id, route) && id !in gone
    ensures |StillPinned(d, segs, route)| <= |StillPinned(c, segs, route)|
    ensures StillPinned(d, segs, route) == StillPinned(c, segs, route)
            <==> forall s :: s in StillPinned(c, segs, route) ==> s.segmentId !in gone
    ensures (exists s :: s in StillPinned(c, segs, route) && s.segmentId in gone)
            ==> |StillPinned(d, segs, route)| < |StillPinned(c, segs, route)|
  {
    if segs != [] {
      var init, last := segs[..|segs| - 1], segs[|segs| - 1];
      StillPinnedLess(c, d, init, route, gone);
      if Pinned(c, last.segmentId, route) {
        assert last in StillPinned(c, segs, route);
      }
    }
  }

  /** After a sweep no leading segment of an overdue route is pinned any more. */
  lemma SweptUnused(c: Cache, d: Cache, routes: map<int, Request>, now: int, threshold: int, r: int)
    requires ListInv(c) && Swept(c, d, routes, now, threshold)
    requires r in routes && Overdue(routes[r], now, threshold)
    ensures forall id :: id in Unused(c, routes[r].segments, r) ==> Delivered(d, id, r)
    ensures Unused(d, routes[r].segments, r) == []
  {
    hide ReleasedTo, NoneUnused, ListInv;
    var segs := routes[r].segments;
    var n := UnusedCount(c, segs, r);
    if n > 0 {
      assert Unused(c, segs, r)[0] == segs[0].segmentId;
    }
  }

  /**
    A second sweep at once finds nothing to release, and reports for a route
    the same undelivered list exactly when no segment of that list repeats one
    of the leading unused segments.
   */
  lemma SecondSweep(c: Cache, d: Cache, routes: map<int, Request>, now: int, threshold: int, r: int)
    requires ListInv(c) && Swept(c, d, routes, now, threshold)
    requires r in routes && Overdue(routes[r], now, threshold)
    ensures Unused(d, routes[r].segments, r) == []
    ensures var before := Undelivered(c, routes[r].segments, r);
            Undelivered(d, routes[r].segments, r) == before
            <==> forall s :: s in before ==> s.segmentId !in Unused(c, routes[r].segments, r)
  {
    hide ReleasedTo, NoneUnused, ListInv;
    var segs := routes[r].segments;
    var n := UnusedCount(c, segs, r);
    var gone := Unused(c, segs, r);
    SweptUnused(c, d, routes, now, threshold, r);
    assert UnusedCount(d, segs, r) == 0 by {
      assert |Unused(d, segs, r)| == UnusedCount(d, segs, r);
    }
    assert segs[0..] == segs && segs == segs[..n] + segs[n..];
    StillPinnedConcat(d, segs[..n], segs[n..], r);
    forall k | 0 <= k < n
      ensures !Pinned(d, segs[..n][k].segmentId, r)
    {
      assert gone[k] == segs[k].segmentId;
    }
    StillPinnedNone(d, segs[..n], r);
    assert Undelivered(d, segs, r) == StillPinned(d, segs[n..], r);
    StillPinnedLess(c, d, segs[n..], r, gone);
  }

  /** Nor does a second sweep at once change anything in the cache. */
  lemma SecondSweepChangesNothing(
      c: Cache, d: Cache, e: Cache, routes: map<int, Request>, now: int, threshold: int)
    requires ListInv(c) && ListInv(d)
    requires Swept(c, d, routes, now, threshold) && Swept(d, e, routes, now, threshold)
    ensures e == d
  {
    hide ListInv, ReleasedTo, Overdue, Unused;
    forall r | r in routes && Overdue(routes[r], now, threshold)
      ensures Unused(d, routes[r].segments, r) == []
    {
      SweptUnused(c, d, routes, now, threshold, r);
    }
  }

  /** A sweep keeps the structural invariant, the stored sizes, the log and the touch times. */
  lemma SweepKeeps(
      sizes: string -> nat, c: Cache, d: Cache, routes: map<int, Request>, now: int, threshold: int)
    requires Inv(c) && StoredSizes(sizes, c) && Swept(c, d, routes, now, threshold)
    ensures Inv(d) && StoredSizes(sizes, d)
    ensures LogInv(sizes, c) ==> LogInv(sizes, d)
    ensures TimesInv(c) ==> TimesInv(d)
  {
    hide Inv, StoredSizes, ListInv, LogInv, TimesInv, Run;
    ListOfInv(c);
    var ops :| OnlyReleases(ops) && d == Run(c, ops);
    assert CarriedSizes(sizes, ops);
    RunInv(sizes, c, ops);
    if LogInv(sizes, c) {
      LogRun(sizes, c, ops);
    }
    if TimesInv(c) {
      RunTimes(c, ops);
    }
  }

  lemma ListOfInv(c: Cache)
    requires Inv(c)
    ensures ListInv(c)
  {
  }

  /** What was reached by a run of the cache is so after a sweep: all that holds over runs goes on holding. */
  lemma SweepIsRun(
      start: Cache, before: seq<Op>, d: Cache, routes: map<int, Request>, now: int, threshold: int)
    requires ListInv(start) && Swept(Run(start, before), d, routes, now, threshold)
    ensures exists ops :: OnlyReleases(ops) && d == Run(start, before + ops)
  {
    hide ListInv, Run;
    var ops :| OnlyReleases(ops) && d == Run(Run(start, before), ops);
    RunConcat(start, before, ops);
  }
}
