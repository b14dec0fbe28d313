/** The edge's segment cache with its fields, each method proved against CacheModel. */
module SegmentCaches {
  import opened Collections
  import opened CacheModel

  class SegmentCache {
    const cachePolicy: Policy
    const size: nat
    var evictable: seq<string>
    var segmentRouteMap: map<string, Metadata>
    var currentSize: int
    var evictableSize: int
    var currentTimestamp: nat
    var evictCount: nat
    var promoteCount: nat
    var events: seq<Event>

    ghost function Abs(): Cache
      reads this
    {
      Cache(cachePolicy, size, evictable, segmentRouteMap, currentSize, evictableSize,
            currentTimestamp, evictCount, promoteCount, events)
    }

    constructor (size: nat, cachePolicy: Policy)
      ensures Abs() == Empty(cachePolicy, size)
    {
      this.size, this.cachePolicy := size, cachePolicy;
      evictable, segmentRouteMap, events := [], map[], [];
      currentSize, evictableSize, currentTimestamp := 0, 0, 0;
      evictCount, promoteCount := 0, 0;
    }

    /** Takes an id out of the evictable list and counts the promotion. */
    method UpdateEvictable(segmentId: string) returns (promoted: bool)
      modifies this`evictable, this`promoteCount
      ensures promoted <==> segmentId in old(evictable)
      ensures promoted ==> evictable == RemoveAt(old(evictable), IndexOf(old(evictable), segmentId))
                           && promoteCount == old(promoteCount) + 1
      ensures !promoted ==> evictable == old(evictable) && promoteCount == old(promoteCount)
    {
      var i := 0;
      while i < |evictable| && evictable[i] != segmentId
        invariant i <= |evictable|
        invariant segmentId !in evictable[..i]
      {
        i := i + 1;
      }
      promoted := i < |evictable|;
      IndexOfUnique(evictable, segmentId, i);
      if promoted {
        evictable := evictable[..i] + evictable[i + 1..];
        promoteCount := promoteCount + 1;
      }
    }

    /** Drops the first listed segment from the cache. */
    method PopFirst() returns (popped: Option<string>)
      requires WellListed(Abs())
      modifies this
      ensures popped.None? <==> old(evictable) == []
      ensures popped.None? ==> Abs() == old(Abs())
      ensures popped.Some? ==> popped.value == old(evictable)[0] && Abs() == Pop(old(Abs()))
    {
      if |evictable| == 0 {
        return None;
      }
      var segId := evictable[0];
      currentSize := currentSize - segmentRouteMap[segId].segSize;
      evictableSize := evictableSize - segmentRouteMap[segId].segSize;
      evictCount := evictCount + 1;
      segmentRouteMap := segmentRouteMap - {segId};
      evictable := evictable[1..];
      return Some(segId);
    }

    method IsSegmentCacheFull(excess: nat) returns (evicted: seq<string>, full: bool)
      requires WellListed(Abs())
      modifies this
      ensures full <==> !Accepts(old(Abs()), excess)
      ensures !Fits(old(Abs()), excess) ==> Abs() == old(Abs())
      ensures Fits(old(Abs()), excess) ==>
                && Abs() == PopN(old(Abs()), Victims(old(Abs()), excess))
                && evicted == old(evictable)[..Victims(old(Abs()), excess)]
    {
      hide PopN, Victims, WellListed;
      NoneToPop(Abs(), excess);
      if currentSize + excess <= size {
        return [], false;
      }
      if currentSize - evictableSize + excess > size {
        return [], true;
      }
      evicted := [];
      ghost var before := Abs();
      while currentSize + excess > size
        invariant WellListed(Abs())
        invariant |evicted| <= |before.evictable| && evicted == before.evictable[..|evicted|]
        invariant Abs() == PopN(before, |evicted|)
        invariant |evicted| + Victims(Abs(), excess) == Victims(before, excess)
        decreases |evictable|
      {
        VictimStep(before, |evicted|, excess);
        var id := PopFirst();
        if id.None? {
          return evicted, true;
        }
        evicted := evicted + [id.value];
      }
      NoneToPop(Abs(), excess);
      full := false;
    }

    /** The list utility: grow by one at `index`, then overwrite that slot. */
    static method Insert(a: seq<string>, index: nat, value: string) returns (b: seq<string>)
      requires index <= |a|
      ensures b == InsertAt(a, index, value)
    {
      if |a| == index {
        return a + [value];
      }
      b := a[..index + 1] + a[index..];
      b := b[index := value];
    }

    method AddEvent(segmentId: string, routeId: int, eventType: EventType)
      modifies this`events
      ensures events == old(events) + [Event(segmentId, routeId, eventType)]
    {
      events := events + [Event(segmentId, routeId, eventType)];
    }

    /** The key under which the policy orders a cached segment. */
    function PolicyKey(segmentId: string): (k: nat)
      requires segmentId in segmentRouteMap
      reads this
      ensures k == Key(Abs(), segmentId)
    {
      match cachePolicy
      case LRU => segmentRouteMap[segmentId].timestamp
      case LFU => segmentRouteMap[segmentId].popularity
    }

    method AddToEvictable(segmentId: string)
      requires WellListed(Abs()) && segmentId in segmentRouteMap
      modifies this
      ensures Abs() == MakeEvictable(old(Abs()), segmentId)
    {
      var idx := 0;
      var i := 0;
      while i < |evictable|
        invariant i <= |evictable| && idx == 0
        invariant Abs() == old(Abs())
        invariant FirstLarger(Abs(), PolicyKey(segmentId), 0) == FirstLarger(Abs(), PolicyKey(segmentId), i)
      {
        if PolicyKey(segmentId) < PolicyKey(evictable[i]) {
          idx := i;
          break;
        }
        i := i + 1;
      }
      evictable := Insert(evictable, idx, segmentId);
      evictableSize := evictableSize + segmentRouteMap[segmentId].segSize;
      AddEvent(segmentId, NO_ROUTE, EvictableEvent);
    }

    method HasSegment(segmentId: string) returns (found: bool)
      ensures found <==> segmentId in Abs().segments
    {
      found := segmentId in segmentRouteMap;
    }

    method DeliveredSegment(segmentId: string, routeId: int) returns (delivered: bool)
      ensures delivered <==> Delivered(Abs(), segmentId, routeId)
    {
      if segmentId !in segmentRouteMap {
        return true;
      }
      return routeId !in segmentRouteMap[segmentId].routeIds;
    }

    /** None is the cache-is-full error; otherwise the evicted ids. */
    method AddSegment(segment: Segment, routeId: int) returns (result: Option<seq<string>>)
      requires ListInv(Abs())
      modifies this
      ensures ListInv(Abs())
      ensures Abs() == CacheModel.AddSegment(old(Abs()), segment, routeId)
      ensures result == if Accepts(old(Abs()), segment.segmentSize) then Some(Evicted(old(Abs()), segment)) else None
      ensures Inv(old(Abs())) ==>
                && (result.Some? <==> FreeSpace(old(Abs())) >= segment.segmentSize)
                && (result.None? ==> Abs() == old(Abs()))
    {
      ghost var before := Abs();
      AddSegmentListInv(before, segment, routeId);
      if Inv(before) {
        AcceptsExactly(before, segment.segmentSize);
      }
      var evictedIds, isFull := IsSegmentCacheFull(segment.segmentSize);
      if isFull {
        return None;
      }
      TouchSegment(segment, routeId);
      LogPops(evictedIds);
      return Some(evictedIds);
    }

    method LogPops(evictedIds: seq<string>)
      modifies this`events
      ensures events == old(events) + PopEvents(evictedIds)
    {
      for i := 0 to |evictedIds|
        invariant events == old(events) + PopEvents(evictedIds)[..i]
      {
        AddEvent(evictedIds[i], NO_ROUTE, PopEvent);
      }
    }

    /** The insertion half of AddSegment: a new entry, or one more route on an old one. */
    method TouchSegment(segment: Segment, routeId: int)
      modifies this
      ensures Abs() == Touch(old(Abs()), segment, routeId)
    {
      hide IndexOf;
      var id := segment.segmentId;
      if id !in segmentRouteMap {
        segmentRouteMap := segmentRouteMap[id := Metadata(segment.segmentSize, {routeId}, 0, 0)];
        currentSize := currentSize + segment.segmentSize;
        AddEvent(id, routeId, PushEvent);
      } else {
        var md := segmentRouteMap[id];
        segmentRouteMap := segmentRouteMap[id := md.(routeIds := md.routeIds + {routeId},
            popularity := md.popularity + 1)];
        var promoted := UpdateEvictable(id);
        if promoted {
          evictableSize := evictableSize - segment.segmentSize;
        }
        AddEvent(id, routeId, TouchEvent);
      }
      currentTimestamp := currentTimestamp + 1;
      segmentRouteMap := segmentRouteMap[id := segmentRouteMap[id].(timestamp := currentTimestamp)];
    }

    method UpdateSegmentStatus(segmentId: string, routeId: int)
      requires ListInv(Abs())
      modifies this
      ensures ListInv(Abs())
      ensures Abs() == CacheModel.UpdateSegmentStatus(old(Abs()), segmentId, routeId)
    {
      UpdateSegmentStatusListInv(Abs(), segmentId, routeId);
      if segmentId !in segmentRouteMap {
        return;
      }
      var md := segmentRouteMap[segmentId];
      if routeId !in md.routeIds {
        return;
      }
      segmentRouteMap := segmentRouteMap[segmentId := md.(routeIds := md.routeIds - {routeId})];
      if segmentRouteMap[segmentId].routeIds == {} {
        AddToEvictable(segmentId);
      }
    }

    method GetAvailableFreeSpace() returns (space: int)
      ensures space == FreeSpace(Abs())
    {
      space := size - currentSize + evictableSize;
    }
  }

  lemma {:induction false} IndexOfUnique(s: seq<string>, x: string, i: nat)
    requires i <= |s| && x !in s[..i]
    requires i < |s| ==> s[i] == x
    ensures IndexOf(s, x) == i
  {
    if i > 0 {
      assert s[..i] == [s[0]] + s[1..][..i - 1];
      IndexOfUnique(s[1..], x, i - 1);
    }
  }

  lemma NoneToPop(c: Cache, excess: nat)
    requires WellListed(c)
    ensures PopN(c, 0) == c
    ensures c.currentSize + excess <= c.capacity || c.evictable == [] ==> Victims(c, excess) == 0
  {
  }

  /** One turn of the eviction loop. */
  lemma VictimStep(before: Cache, n: nat, excess: nat)
    requires WellListed(before) && n <= |before.evictable|
    requires var c := PopN(before, n); c.currentSize + excess > c.capacity
    ensures var c := PopN(before, n);
            if c.evictable == [] then Victims(c, excess) == 0
            else n < |before.evictable| && c.evictable[0] == before.evictable[n] && PopN(before, n + 1) == Pop(c)
                 && Victims(c, excess) == 1 + Victims(Pop(c), excess)
  {
    if n < |before.evictable| {
      PopNStep(before, n);
    }
  }

  lemma {:induction false} PopNStep(c: Cache, n: nat)
    requires WellListed(c) && n < |c.evictable|
    ensures PopN(c, n + 1) == Pop(PopN(c, n))
    decreases n
  {
    if n > 0 {
      PopNStep(Pop(c), n - 1);
    }
  }
}
