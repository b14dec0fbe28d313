/** What the event log alone says about recency and use, and which segment is evicted next by it. */
module CacheHistory {
  import opened Collections
  import opened CacheModel
  import opened CacheRuns

  predicate IsUse(e: Event, id: string) {
    e.segmentId == id && (e.eventType == PushEvent || e.eventType == TouchEvent)
  }

  /** Position in the log of the id's last push or touch, -1 if there is none. */
  function LastUse(es: seq<Event>, id: string): (i: int)
    ensures -1 <= i < |es|
  {
    var n := |es| - 1;
    if n < 0 then -1 else if IsUse(es[n], id) then n else LastUse(es[..n], id)
  }

  /** The id's touches since it was last pushed. */
  function UseCount(es: seq<Event>, id: string): nat {
    var n := |es| - 1;
    if n < 0 || (es[n].segmentId == id && es[n].eventType == PushEvent) then 0
    else UseCount(es[..n], id) + if es[n].segmentId == id && es[n].eventType == TouchEvent then 1 else 0
  }

  /** The metadata of the cached segments are what the log says: order of touch times, and use counts. */
  ghost predicate ToldByLog(c: Cache) {
    && (forall id :: id in c.segments ==>
          && c.segments[id].timestamp <= c.currentTimestamp
          && LastUse(c.events, id) >= 0
          && c.segments[id].popularity == UseCount(c.events, id))
    && (forall a, b :: a in c.segments && b in c.segments ==>
          (c.segments[a].timestamp < c.segments[b].timestamp <==> LastUse(c.events, a) < LastUse(c.events, b)))
  }

  lemma EventSnoc(es: seq<Event>, e: Event, id: string)
    ensures LastUse(es + [e], id) == if IsUse(e, id) then |es| else LastUse(es, id)
    ensures UseCount(es + [e], id)
            == if e.segmentId == id && e.eventType == PushEvent then 0
               else UseCount(es, id) + if e.segmentId == id && e.eventType == TouchEvent then 1 else 0
  {
    assert (es + [e])[..|es|] == es;
  }

  /** Pops change neither. */
  lemma {:induction false} PopsQuiet(es: seq<Event>, ids: seq<string>, id: string)
    ensures LastUse(es + PopEvents(ids), id) == LastUse(es, id)
    ensures UseCount(es + PopEvents(ids), id) == UseCount(es, id)
  {
    if ids == [] {
      assert es + PopEvents(ids) == es;
    } else {
      var init, last := ids[..|ids| - 1], Event(ids[|ids| - 1], NO_ROUTE, PopEvent);
      PopsQuiet(es, init, id);
      EventSnoc(es + PopEvents(init), last, id);
      PopEventsSnoc(ids);
      assert es + PopEvents(ids) == es + PopEvents(init) + [last];
    }
  }

  /** What the log says is kept by whatever keeps the metadata and logs no use. */
  lemma QuietTold(c: Cache, d: Cache)
    requires ToldByLog(c) && d.currentTimestamp == c.currentTimestamp
    requires forall id :: id in d.segments ==>
               && id in c.segments
               && d.segments[id].timestamp == c.segments[id].timestamp
               && d.segments[id].popularity == c.segments[id].popularity
    requires forall id :: LastUse(d.events, id) == LastUse(c.events, id)
                          && UseCount(d.events, id) == UseCount(c.events, id)
    ensures ToldByLog(d)
  {
  }

  /** What Touch does to the metadata and to the log's answers. */
  lemma TouchEffect(c: Cache, seg: Segment, route: int, id: string)
    ensures var d := Touch(c, seg, route);
            && d.currentTimestamp == c.currentTimestamp + 1
            && (id in d.segments <==> id in c.segments || id == seg.segmentId)
            && (id == seg.segmentId ==>
                  && d.segments[id].timestamp == d.currentTimestamp && LastUse(d.events, id) == |c.events|
                  && d.segments[id].popularity == (if id in c.segments then c.segments[id].popularity + 1 else 0)
                  && UseCount(d.events, id) == if id in c.segments then UseCount(c.events, id) + 1 else 0)
            && (id in c.segments && id != seg.segmentId ==> d.segments[id] == c.segments[id])
            && (id != seg.segmentId ==>
                  LastUse(d.events, id) == LastUse(c.events, id) && UseCount(d.events, id) == UseCount(c.events, id))
  {
    var e := Event(seg.segmentId, route, if seg.segmentId in c.segments then TouchEvent else PushEvent);
    assert Touch(c, seg, route).events == c.events + [e];
    EventSnoc(c.events, e, id);
    hide LastUse, UseCount, IndexOf;
  }

  lemma TouchTold(c: Cache, seg: Segment, route: int)
    requires ToldByLog(c)
    ensures ToldByLog(Touch(c, seg, route))
  {
    forall id {
      TouchEffect(c, seg, route, id);
    }
    hide LastUse, UseCount, Touch;
  }

  lemma AddTold(c: Cache, seg: Segment, route: int)
    requires ListInv(c) && ToldByLog(c)
    ensures ToldByLog(AddSegment(c, seg, route))
  {
    hide ToldByLog, PopN, Victims;
    if Fits(c, seg.segmentSize) {
      var n := Victims(c, seg.segmentSize);
      var room := PopN(c, n);
      PopNFrame(c, n);
      QuietTold(c, room);
      if Accepts(c, seg.segmentSize) {
        var touched := Touch(room, seg, route);
        TouchTold(room, seg, route);
        forall id {
          PopsQuiet(touched.events, Evicted(c, seg), id);
        }
        QuietTold(touched, AddSegment(c, seg, route));
      }
    }
  }

  /** A release keeps the touch times and use counts, and logs no use, wherever it lists the segment. */
  lemma ReleaseTold(c: Cache, id: string, route: int)
    requires ListInv(c) && ToldByLog(c)
    ensures ToldByLog(UpdateSegmentStatus(c, id, route)) && ToldByLog(ReleaseAtEnd(c, id, route))
  {
    hide ToldByLog, FirstLarger, ListPosition, InsertAt, LastUse, UseCount;
    forall k {
      EventSnoc(c.events, Event(id, NO_ROUTE, EvictableEvent), k);
    }
    QuietTold(c, UpdateSegmentStatus(c, id, route));
    QuietTold(c, ReleaseAtEnd(c, id, route));
  }

  lemma {:induction false} RunTold(c: Cache, ops: seq<Op>)
    requires ListInv(c) && ToldByLog(c)
    ensures ToldByLog(Run(c, ops)) && ToldByLog(IntendedRun(c, ops))
  {
    hide ToldByLog, ListInv, UpdateSegmentStatus, ReleaseAtEnd, AddSegment;
    if ops != [] {
      var init, last := ops[..|ops| - 1], ops[|ops| - 1];
      RunTold(c, init);
      match last
      case Add(seg, route) =>
        AddTold(Run(c, init), seg, route);
        AddTold(IntendedRun(c, init), seg, route);
      case Release(id, route) =>
        ReleaseTold(Run(c, init), id, route);
        ReleaseTold(IntendedRun(c, init), id, route);
    }
  }

  lemma EmptyTold(policy: Policy, capacity: nat)
    ensures var c := Empty(policy, capacity); ListInv(c) && Sorted(c) && TimesInv(c) && ToldByLog(c)
  {
  }

  /**
    Over every run from the empty cache: of two cached segments the one used
    longer ago, by the log, has the smaller touch time; and a cached segment's
    use count is the number of its touches since it was pushed.
   */
  lemma MetadataFromLog(policy: Policy, capacity: nat, ops: seq<Op>, a: string, b: string)
    requires ListInv(Empty(policy, capacity))
    requires var c := Run(Empty(policy, capacity), ops); a in c.segments && b in c.segments
    ensures var c := Run(Empty(policy, capacity), ops);
            && (c.segments[a].timestamp < c.segments[b].timestamp <==> LastUse(c.events, a) < LastUse(c.events, b))
            && 0 <= LastUse(c.events, a)
            && c.segments[a].popularity == UseCount(c.events, a)
  {
    EmptyTold(policy, capacity);
    hide ListInv, LastUse, UseCount, Run;
    RunTold(Empty(policy, capacity), ops);
  }

  /** By the log, the one may be evicted before the other: used longer ago, or no more often. */
  predicate EvictedBefore(c: Cache, a: string, b: string) {
    match c.policy
    case LRU => LastUse(c.events, a) < LastUse(c.events, b)
    case LFU => UseCount(c.events, a) <= UseCount(c.events, b)
  }

  lemma SortedByLog(c: Cache)
    requires ListInv(c) && TimesInv(c) && ToldByLog(c)
    ensures Sorted(c)
            <==> forall i, j :: 0 <= i < j < |c.evictable| ==> EvictedBefore(c, c.evictable[i], c.evictable[j])
  {
    hide LastUse, UseCount;
    assert Sorted(c) <==>
      forall i, j :: 0 <= i < j < |c.evictable| ==> Key(c, c.evictable[i]) <= Key(c, c.evictable[j]);
    forall i, j | 0 <= i < j < |c.evictable|
      ensures Key(c, c.evictable[i]) <= Key(c, c.evictable[j]) <==> EvictedBefore(c, c.evictable[i], c.evictable[j])
    {
      assert c.evictable[i] in c.evictable && c.evictable[j] in c.evictable;
    }
  }

  /** In every reachable state the list is sorted exactly when it is in the order of the log's uses. */
  lemma OrderFromLog(policy: Policy, capacity: nat, ops: seq<Op>)
    requires ListInv(Empty(policy, capacity))
    ensures var c := Run(Empty(policy, capacity), ops);
            Sorted(c)
            <==> forall i, j :: 0 <= i < j < |c.evictable| ==> EvictedBefore(c, c.evictable[i], c.evictable[j])
  {
    EmptyTold(policy, capacity);
    hide *;
    RunTold(Empty(policy, capacity), ops);
    RunTimes(Empty(policy, capacity), ops);
    SortedByLog(Run(Empty(policy, capacity), ops));
  }

  /**
    With the end as the default position, every reachable state evicts next,
    of all segments without a route, the one used longest ago, or one used least.
   */
  lemma IntendedVictim(policy: Policy, capacity: nat, ops: seq<Op>, id: string)
    requires ListInv(Empty(policy, capacity))
    requires var c := IntendedRun(Empty(policy, capacity), ops);
             id in c.segments && c.segments[id].routeIds == {}
    ensures var c := IntendedRun(Empty(policy, capacity), ops);
            c.evictable != [] && (id == c.evictable[0] || EvictedBefore(c, c.evictable[0], id))
  {
    EmptyTold(policy, capacity);
    var c := IntendedRun(Empty(policy, capacity), ops);
    hide Run, IntendedRun, TimesInv, Sorted, ToldByLog, EvictedBefore;
    assert id in c.evictable;
    var i :| 0 <= i < |c.evictable| && c.evictable[i] == id;
    hide ListInv;
    RunTold(Empty(policy, capacity), ops);
    IntendedRunSorted(Empty(policy, capacity), ops);
    SortedByLog(c);
  }
}
